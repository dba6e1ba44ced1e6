/** Which leading columns of an index a conjunctive area can use. */
module IndexUse {
  import opened Expressions
  import opened Filters
  import opened JoinPlanning
  import opened Plans
  import opened Reals

  datatype Index = Index(columns: seq<string>, unique: bool)

  /** An index with the scan kind and the number of its leading columns that are used. */
  datatype Use = Use(index: Index, isScan: bool, len: nat)

  ghost predicate HasVariable(e: Expression, table: string, column: string) {
    exists v :: v in e.variables && v.name == column && v.table == table
  }

  /** None of the expression's tables has an operation yet. */
  ghost predicate Available(e: Expression, planned: set<string>) {
    forall v :: v in e.variables ==> v.table !in planned
  }

  ghost predicate Covers(e: Expression, table: string, column: string, planned: set<string>) {
    Available(e, planned) && HasVariable(e, table, column)
  }

  ghost predicate Covered(area: seq<Expression>, table: string, column: string, planned: set<string>) {
    exists e :: e in area && Covers(e, table, column, planned)
  }

  /** Some expression other than an equality covers the column. */
  ghost predicate Ranged(area: seq<Expression>, table: string, column: string, planned: set<string>) {
    exists e :: e in area && Covers(e, table, column, planned) && e.equal != 1
  }

  predicate FullUnique(u: Use) {
    u.index.unique && !u.isScan && u.len == |u.index.columns|
  }

  /** Where among the first `n` variables of the expression those of the table stand. */
  ghost function Places(e: Expression, table: string, n: nat): set<nat>
    requires n <= |e.variables|
  {
    set i | 0 <= i < n && e.variables[i].table == table
  }

  /** How many of the expression's variables belong to the table. */
  ghost function Mentions(e: Expression, table: string): nat {
    |Places(e, table, |e.variables|)|
  }

  ghost predicate SomeMentionsTwice(area: seq<Expression>, table: string) {
    exists e :: e in area && Mentions(e, table) > 1
  }

  lemma ScanTakesSomethingIff(area: seq<Expression>, used: set<nat>, table: string)
    ensures Taken(area, used, ([table], [])) != []
       <==> exists e :: e in area && e.id !in used && MentionsTable(e, table)
  {
    forall e: Expression ensures Qualifies(e, ([table], [])) <==> MentionsTable(e, table) {
    }
    TakesSomethingIff(area, used, ([table], []));
  }

  /** A single condition that mentions the table twice: the dropped scan is charged with it, and no later
      request gets it. */
  lemma DroppedFilterExample(e: Expression, table: string, later: Call)
    requires Mentions(e, table) > 1
    ensures SomeMentionsTwice([e], table) && Taken([e], {}, ([table], [])) == [e] && Taken([e], {e.id}, later) == []
  {
    MentionsSome(e, table);
    assert [e][1..] == [] && e in [e];
  }

  lemma MentionsSome(e: Expression, table: string)
    requires Mentions(e, table) > 0
    ensures MentionsTable(e, table)
  {
    var i :| i in Places(e, table, |e.variables|);
    assert e.variables[i] in e.variables;
  }

  /** What using an index amounts to: nothing, when its first column is not covered; otherwise the longest
      run of covered leading columns that goes on past equalities only. */
  ghost predicate IsBestUse(use: seq<Use>, index: Index, area: seq<Expression>, table: string, planned: set<string>) {
    if use == [] then
      index.columns != [] && !Covered(area, table, index.columns[0], planned)
    else
      |use| == 1 && use[0].index == index &&
      var len := use[0].len;
      && len <= |index.columns| && (len == 0 <==> index.columns == [])
      && (forall k :: 0 <= k < len ==> Covered(area, table, index.columns[k], planned))
      && (forall k :: 0 <= k < len - 1 ==> !Ranged(area, table, index.columns[k], planned))
      && (use[0].isScan <==> len > 0 && Ranged(area, table, index.columns[len - 1], planned))
      && (!use[0].isScan && len < |index.columns| ==> !Covered(area, table, index.columns[len], planned))
  }

  /** The conditions determine the outcome. */
  lemma BestUseUnique(u1: seq<Use>, u2: seq<Use>, index: Index, area: seq<Expression>, table: string,
                      planned: set<string>)
    requires IsBestUse(u1, index, area, table, planned) && IsBestUse(u2, index, area, table, planned)
    ensures u1 == u2
  {
  }

  ghost predicate Completes(use: seq<Use>) {
    use != [] && FullUnique(use[0])
  }

  /** What each index in turn amounts to, up to the first unique one used in full. */
  ghost predicate AreUses(uses: seq<seq<Use>>, indexes: seq<Index>, area: seq<Expression>, table: string,
                          planned: set<string>)
  {
    && |uses| <= |indexes|
    && (forall i :: 0 <= i < |uses| ==> IsBestUse(uses[i], indexes[i], area, table, planned))
    && (forall i :: 0 <= i < |uses| - 1 ==> !Completes(uses[i]))
    && (|uses| < |indexes| ==> uses != [] && Completes(uses[|uses| - 1]))
  }

  /** There is only one such list. */
  lemma AreUsesUnique(us: seq<seq<Use>>, vs: seq<seq<Use>>, indexes: seq<Index>, area: seq<Expression>,
                      table: string, planned: set<string>)
    requires AreUses(us, indexes, area, table, planned) && AreUses(vs, indexes, area, table, planned)
    ensures us == vs
  {
    forall i | 0 <= i < |us| && i < |vs| ensures us[i] == vs[i] {
      assert IsBestUse(us[i], indexes[i], area, table, planned) && IsBestUse(vs[i], indexes[i], area, table, planned);
      BestUseUnique(us[i], vs[i], indexes[i], area, table, planned);
    }
  }

  ghost function Flat(uses: seq<seq<Use>>): seq<Use> {
    if uses == [] then [] else Flat(uses[..|uses| - 1]) + uses[|uses| - 1]
  }

  lemma FlatOneMore(uses: seq<seq<Use>>, use: seq<Use>)
    ensures Flat(uses + [use]) == Flat(uses) + use
  {
    assert (uses + [use])[..|uses|] == uses;
  }

  /** The unique indexes, or the others, in their order. */
  function Only(indexes: seq<Index>, unique: bool): seq<Index> {
    if indexes == [] then []
    else
      var n := |indexes| - 1;
      Only(indexes[..n], unique) + if indexes[n].unique == unique then [indexes[n]] else []
  }

  /** First the unique indexes, and the others only if no unique index is used in full. */
  ghost predicate AreChosen(unique: seq<seq<Use>>, other: seq<seq<Use>>, indexes: seq<Index>, area: seq<Expression>,
                            table: string, planned: set<string>)
  {
    && AreUses(unique, Only(indexes, true), area, table, planned)
    && if exists u :: u in unique && Completes(u) then other == [] else AreUses(other, Only(indexes, false), area, table, planned)
  }

  /** Every index is on exactly one side. */
  lemma {:induction false} OnlyParts(indexes: seq<Index>)
    ensures multiset(Only(indexes, true)) + multiset(Only(indexes, false)) == multiset(indexes)
  {
    if indexes != [] {
      var n := |indexes| - 1;
      OnlyParts(indexes[..n]);
      assert indexes == indexes[..n] + [indexes[n]];
    }
  }

  /** On its side are the indexes of one kind, in their original order. */
  lemma {:induction false} OnlyInOrder(indexes: seq<Index>, unique: bool) returns (at: seq<nat>)
    ensures forall index :: index in Only(indexes, unique) ==> index.unique == unique
    ensures |at| == |Only(indexes, unique)|
    ensures forall i :: 0 <= i < |at| ==> at[i] < |indexes| && Only(indexes, unique)[i] == indexes[at[i]]
    ensures forall i, j :: 0 <= i < j < |at| ==> at[i] < at[j]
  {
    at := [];
    if indexes != [] {
      var n := |indexes| - 1;
      at := OnlyInOrder(indexes[..n], unique);
      if indexes[n].unique == unique { at := at + [n]; }
    }
  }

  lemma CoverMeans(area: seq<Expression>, table: string, column: string, planned: set<string>)
    ensures Covered(area, table, column, planned) <==> exists e ::
      && e in area && (forall v :: v in e.variables ==> v.table !in planned)
      && exists v :: v in e.variables && v.name == column && v.table == table
    ensures Ranged(area, table, column, planned) <==> exists e ::
      && e in area && e.equal != 1 && (forall v :: v in e.variables ==> v.table !in planned)
      && exists v :: v in e.variables && v.name == column && v.table == table
  {
  }

  lemma CoverOneMore(es: seq<Expression>, e: Expression, table: string, column: string, planned: set<string>)
    ensures Covered(es + [e], table, column, planned) <==> Covered(es, table, column, planned) || Covers(e, table, column, planned)
    ensures Ranged(es + [e], table, column, planned)
       <==> Ranged(es, table, column, planned) || (Covers(e, table, column, planned) && e.equal != 1)
  {
    assert e in es + [e];
    assert forall f :: f in es + [e] <==> f in es || f == e;
  }

  /** The row estimate of an index condition on the first `len` columns. */
  function IndexConNt(index: Index, len: nat): (nt: real)
    requires len <= |index.columns|
  {
    var n := |index.columns|;
    if index.unique then (1 + (n - len)) as real
    else 3.0 + 6.0 * (1.0 - 1.0 / (n - len + 1) as real)
  }

  /** The row estimate of an index scan. */
  function IndexScanNt(index: Index, len: nat, rows: nat, full: bool): (nt: real)
    requires len <= |index.columns|
  {
    if full then rows as real
    else rows as real * 0.05 * (1.0 + 1.0 / (|index.columns| - len + 1) as real)
  }

  lemma Reciprocal(x: real)
    requires x > 0.0
    ensures 0.0 < 1.0 / x && x * (1.0 / x) == 1.0
  {
  }

  lemma Reassociate(p: real, q: real, x: real)
    requires x * p == 1.0
    ensures p * (q * x) == q
  {
    assert p * (q * x) == q * (x * p);
  }

  lemma Decreasing(x: real, y: real)
    requires 0.0 < x <= y
    ensures 0.0 < 1.0 / y <= 1.0 / x
  {
    Reciprocal(x);
    Reciprocal(y);
    var (p, q) := (1.0 / x, 1.0 / y);
    Weighted(q, x, y);
    Weighted(p, q * x, 1.0);
    Reassociate(p, q, x);
  }

  lemma Reciprocals(a: int, b: int)
    requires 0 < a <= b
    ensures 0.0 < 1.0 / b as real <= 1.0 / a as real <= 1.0
  {
    Decreasing(a as real, b as real);
    Decreasing(1.0, a as real);
  }

  /** The row estimate without a division: with `rest` unused columns, one more than these for a unique index,
      and otherwise above 3 by rest of (rest + 1) parts of 6. */
  lemma ConEstimate(index: Index, len: nat, rest: nat)
    requires len + rest == |index.columns|
    ensures index.unique ==> IndexConNt(index, len) == 1.0 + rest as real
    ensures !index.unique ==> (rest + 1) as real * (IndexConNt(index, len) - 3.0) == 6.0 * rest as real
  {
    var (parts, q) := ((rest + 1) as real, 1.0 / (rest + 1) as real);
    assert parts * q == 1.0 && parts * (6.0 * (1.0 - q)) == 6.0 * (parts - parts * q);
  }

  /** The more columns an index condition uses, the fewer rows it expects. */
  lemma IndexConBounds(index: Index, shorter: nat, len: nat)
    requires 1 <= shorter <= len <= |index.columns|
    ensures IndexConNt(index, len) <= IndexConNt(index, shorter)
    ensures index.unique ==> 1.0 <= IndexConNt(index, len) <= |index.columns| as real
    ensures !index.unique ==> 3.0 <= IndexConNt(index, len) < 9.0
  {
    var n := |index.columns|;
    Reciprocals(n - len + 1, n - shorter + 1);
  }

  lemma ScanShare(rows: real, parts: real)
    requires parts > 0.0
    ensures 20.0 * (parts * (rows * 0.05 * (1.0 + 1.0 / parts))) == (parts + 1.0) * rows
  {
    var q := 1.0 / parts;
    assert parts * q == 1.0;
    assert parts * (rows * 0.05 * (1.0 + q)) == rows * 0.05 * (parts * (1.0 + q));
    assert parts * (1.0 + q) == parts + 1.0;
  }

  /** The row estimate without a division: with `rest` unused columns, (rest + 2) of 20 (rest + 1) rows, and
      all rows of a full scan. */
  lemma ScanEstimate(index: Index, len: nat, rows: nat, rest: nat)
    requires len + rest == |index.columns|
    ensures 20.0 * ((rest + 1) as real * IndexScanNt(index, len, rows, false)) == (rest + 2) as real * rows as real
    ensures IndexScanNt(index, len, rows, true) == rows as real
  {
    var parts := (rest + 1) as real;
    ScanShare(rows as real, parts);
    assert |index.columns| - len + 1 == rest + 1 && (rest + 2) as real == parts + 1.0;
  }

  /** The more columns an index scan uses, the more rows it expects. */
  lemma IndexScanBounds(index: Index, shorter: nat, len: nat, rows: nat)
    requires shorter <= len <= |index.columns|
    ensures IndexScanNt(index, shorter, rows, false) <= IndexScanNt(index, len, rows, false)
    ensures 0.05 * rows as real <= IndexScanNt(index, len, rows, false) <= 0.1 * rows as real
  {
    var n := |index.columns|;
    Reciprocals(n - len + 1, n - shorter + 1);
    var (k, r, q) := (rows as real * 0.05, 1.0 / (n - len + 1) as real, 1.0 / (n - shorter + 1) as real);
    Weighted(k, 1.0 + q, 1.0 + r);
    Weighted(k, 1.0, 1.0 + r);
    Weighted(k, 1.0 + r, 2.0);
  }

  /** Whatever an index is used for, the prefix length is between 1 and the number of its columns, so the
      estimates never divide by zero and stay in their ranges. */
  lemma EstimatesInRange(use: Use, area: seq<Expression>, table: string, planned: set<string>, rows: nat)
    requires use.index.columns != [] && IsBestUse([use], use.index, area, table, planned)
    ensures 1 <= use.len <= |use.index.columns|
    ensures use.index.unique ==> 1.0 <= IndexConNt(use.index, use.len) <= |use.index.columns| as real
    ensures !use.index.unique ==> 3.0 <= IndexConNt(use.index, use.len) < 9.0
    ensures 0.05 * rows as real <= IndexScanNt(use.index, use.len, rows, false) <= 0.1 * rows as real
  {
    assert [use][0] == use;
    IndexConBounds(use.index, use.len, use.len);
    IndexScanBounds(use.index, use.len, use.len, rows);
  }

  class Network {
    const table: string
    /** The tables that already have an operation. */
    const planned: set<string>
    var usedIndexes: seq<Use>

    constructor (table: string, planned: set<string>)
      ensures this.table == table && this.planned == planned && usedIndexes == []
    {
      this.table, this.planned, usedIndexes := table, planned, [];
    }

    /** Picks the indexes, unless a condition mentions the table twice. Then the filters of a scan are
        requested, and the scan is dropped with them. */
    method ChooseIndexes(indexes: seq<Index>, area: seq<Expression>, planner: JoinPlanner)
      returns (ghost unique: seq<seq<Use>>, ghost other: seq<seq<Use>>)
      requires planner.Accounts(area)
      modifies this, planner`usedExp, planner`calls, planner`charged
      ensures usedIndexes == old(usedIndexes) + Flat(unique) + Flat(other) && planner.Accounts(area)
      ensures if SomeMentionsTwice(area, table)
              then unique == other == [] && planner.calls == old(planner.calls) + [([table], [])]
              else AreChosen(unique, other, indexes, area, table, planned) && unchanged(planner)
      ensures planner.charged != old(planner.charged)
         <==> SomeMentionsTwice(area, table) && exists e :: e in area && e.id !in old(planner.Used()) && MentionsTable(e, table)
    {
      var twice := MentionsTwice(area);
      if twice {
        DropScan(area, planner);
        return [], [];
      }
      unique, other := UniqueFirst(indexes, area);
    }

    method DropScan(area: seq<Expression>, planner: JoinPlanner)
      requires planner.Accounts(area)
      modifies planner`usedExp, planner`calls, planner`charged
      ensures planner.Accounts(area) && planner.calls == old(planner.calls) + [([table], [])]
      ensures planner.charged == old(planner.charged) + Taken(area, old(planner.Used()), ([table], []))
      ensures planner.charged != old(planner.charged)
         <==> exists e :: e in area && e.id !in old(planner.Used()) && MentionsTable(e, table)
    {
      ScanTakesSomethingIff(area, planner.Used(), table);
      var scan := new Operation(Scan, []);
      var list := planner.NumOfFilter([table], [], area);
      var node;
      ghost var q;
      node, q := JoinPlanner.AddFilters(scan, list, Start(scan), Scan);
    }

    method UniqueFirst(indexes: seq<Index>, area: seq<Expression>) returns (ghost unique: seq<seq<Use>>,
                       ghost other: seq<seq<Use>>)
      modifies this
      ensures usedIndexes == old(usedIndexes) + Flat(unique) + Flat(other)
      ensures AreChosen(unique, other, indexes, area, table, planned)
    {
      var uniqueIndexes, otherIndexes := Partition(indexes);
      var done;
      done, unique := UseAll(uniqueIndexes, area);
      other := [];
      if !done {
        done, other := UseAll(otherIndexes, area);
      }
    }

    method MentionsTwice(area: seq<Expression>) returns (twice: bool)
      ensures twice <==> SomeMentionsTwice(area, table)
    {
      for i := 0 to |area|
        invariant forall e :: e in area[..i] ==> Mentions(e, table) <= 1
      {
        var cnt := CountMentions(area[i]);
        if cnt > 1 {
          return true;
        }
      }
      assert area[..|area|] == area;
      return false;
    }

    static method Partition(indexes: seq<Index>) returns (unique: seq<Index>, other: seq<Index>)
      ensures unique == Only(indexes, true) && other == Only(indexes, false)
    {
      unique, other := [], [];
      for i := 0 to |indexes|
        invariant unique == Only(indexes[..i], true) && other == Only(indexes[..i], false)
      {
        assert indexes[..i + 1][..i] == indexes[..i];
        if indexes[i].unique {
          unique := unique + [indexes[i]];
        } else {
          other := other + [indexes[i]];
        }
      }
      assert indexes[..|indexes|] == indexes;
    }

    /** Uses the indexes in order, up to the first unique one used in full. */
    method UseAll(indexes: seq<Index>, area: seq<Expression>) returns (done: bool, ghost uses: seq<seq<Use>>)
      modifies this
      ensures AreUses(uses, indexes, area, table, planned) && usedIndexes == old(usedIndexes) + Flat(uses)
      ensures done <==> exists u :: u in uses && Completes(u)
    {
      done, uses := false, [];
      for i := 0 to |indexes|
        invariant !done && |uses| == i && usedIndexes == old(usedIndexes) + Flat(uses)
        invariant forall k :: 0 <= k < i ==> IsBestUse(uses[k], indexes[k], area, table, planned) && !Completes(uses[k])
      {
        ghost var use;
        done, use := UseIndex(indexes[i], area);
        FlatOneMore(uses, use);
        uses := uses + [use];
        assert uses[i] == use;
        if done {
          break;
        }
      }
    }

    method CountMentions(e: Expression) returns (cnt: nat)
      ensures cnt == Mentions(e, table) == |set i | 0 <= i < |e.variables| && e.variables[i].table == table|
    {
      cnt := 0;
      for i := 0 to |e.variables|
        invariant cnt == |Places(e, table, i)|
      {
        var here := e.variables[i].table == table;
        assert Places(e, table, i + 1) == Places(e, table, i) + if here then {i} else {};
        if here {
          cnt := cnt + 1;
        }
      }
      assert Places(e, table, |e.variables|) == set i | 0 <= i < |e.variables| && e.variables[i].table == table;
    }

    method IsAvailable(e: Expression) returns (ok: bool)
      ensures ok <==> forall v :: v in e.variables ==> v.table !in planned
    {
      for i := 0 to |e.variables|
        invariant forall v :: v in e.variables[..i] ==> v.table !in planned
      {
        if e.variables[i].table in planned {
          return false;
        }
      }
      return true;
    }

    method FindVariable(e: Expression, column: string) returns (has: bool)
      ensures has <==> exists v :: v in e.variables && v.name == column && v.table == table
    {
      for i := 0 to |e.variables|
        invariant forall v :: v in e.variables[..i] ==> !(v.name == column && v.table == table)
      {
        if e.variables[i].name == column && e.variables[i].table == table {
          return true;
        }
      }
      return false;
    }

    /** Looks at one column: whether it is covered, and whether it ends the run with a range condition. */
    method CoverColumn(column: string, area: seq<Expression>) returns (found: bool, ranged: bool)
      ensures found <==> exists e ::
        && e in area && (forall v :: v in e.variables ==> v.table !in planned)
        && exists v :: v in e.variables && v.name == column && v.table == table
      ensures ranged <==> exists e ::
        && e in area && e.equal != 1 && (forall v :: v in e.variables ==> v.table !in planned)
        && exists v :: v in e.variables && v.name == column && v.table == table
    {
      found, ranged := false, false;
      for i := 0 to |area|
        invariant found <==> Covered(area[..i], table, column, planned)
        invariant !ranged && !Ranged(area[..i], table, column, planned)
      {
        var e := area[i];
        assert area[..i + 1] == area[..i] + [e];
        CoverOneMore(area[..i], e, table, column, planned);
        var available := IsAvailable(e);
        if !available {
          continue;
        }
        var has := FindVariable(e, column);
        if has {
          found := true;
          if e.equal != 1 {
            assert Covers(e, table, column, planned);
            CoverMeans(area, table, column, planned);
            return true, true;
          }
        }
      }
      assert area[..|area|] == area;
      CoverMeans(area, table, column, planned);
    }

    /** Records how far the area can use the index; tells whether a unique index is used in full. */
    method UseIndex(index: Index, area: seq<Expression>) returns (done: bool, ghost use: seq<Use>)
      modifies this
      ensures usedIndexes == old(usedIndexes) + use && IsBestUse(use, index, area, table, planned)
      ensures done <==> Completes(use)
      ensures done <==> use != [] && index.unique && !use[0].isScan && use[0].len == |index.columns|
    {
      for col := 0 to |index.columns|
        invariant usedIndexes == old(usedIndexes)
        invariant forall k :: 0 <= k < col ==>
          Covered(area, table, index.columns[k], planned) && !Ranged(area, table, index.columns[k], planned)
      {
        var found, ranged := CoverColumn(index.columns[col], area);
        CoverMeans(area, table, index.columns[col], planned);
        if ranged {
          usedIndexes := usedIndexes + [Use(index, true, col + 1)];
          return false, [Use(index, true, col + 1)];
        }
        if !found {
          if col == 0 {
            return false, [];
          }
          usedIndexes := usedIndexes + [Use(index, false, col)];
          return false, [Use(index, false, col)];
        }
      }
      use := [Use(index, false, |index.columns|)];
      usedIndexes := usedIndexes + [Use(index, false, |index.columns|)];
      done := index.unique;
    }
  }
}
