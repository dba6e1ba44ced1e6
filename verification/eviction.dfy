/** Eviction under a size budget, on the cache entries ordered from oldest to newest. */
module Eviction {

  datatype Key = IndexKey(hash: int) | TableKey(name: string)

  datatype Entry = Entry(key: Key, size: int, time: int)

  function Total(es: seq<Entry>): int {
    if es == [] then 0 else es[0].size + Total(es[1..])
  }

  ghost predicate Sizes(es: seq<Entry>) {
    forall i :: 0 <= i < |es| ==> es[i].size >= 0
  }

  lemma {:induction false} TotalNat(es: seq<Entry>)
    requires Sizes(es)
    ensures Total(es) >= 0
  {
    if es != [] { TotalNat(es[1..]); }
  }

  predicate Dropped(e: Entry, chunk: int) {
    e.key.IndexKey? || e.size <= chunk
  }

  function Shrunk(es: seq<Entry>, chunk: int): (r: seq<Entry>)
    requires es != []
  {
    [es[0].(size := es[0].size - chunk)] + es[1..]
  }

  /** One step: the oldest entry goes, an index or a small table at once, another table by one chunk. */
  function EvictOnce(es: seq<Entry>, chunk: int): seq<Entry>
    requires es != []
  {
    if Dropped(es[0], chunk) then es[1..] else Shrunk(es, chunk)
  }

  function Evict(es: seq<Entry>, budget: int, chunk: int): (left: seq<Entry>)
    requires budget > 0 && chunk > 0 && Sizes(es)
    ensures Sizes(left)
    decreases |es|, if es != [] then es[0].size else 0
  {
    if Total(es) < budget then es else Evict(EvictOnce(es, chunk), budget, chunk)
  }

  /** What is left of an entry when its last piece is dropped. */
  function Remainder(e: Entry, chunk: int): int
    requires chunk > 0 && e.size >= 0
    decreases e.size
  {
    if Dropped(e, chunk) then e.size else Remainder(e.(size := e.size - chunk), chunk)
  }

  /** `left` is `es` without its first `k` entries and with `j` chunks taken from the next one. */
  ghost predicate Cut(es: seq<Entry>, left: seq<Entry>, k: nat, j: nat, chunk: int) {
    k <= |es| && |left| == |es| - k &&
    if left == [] then j == 0
    else
      && left[1..] == es[k + 1..] && left[0] == es[k].(size := es[k].size - j * chunk)
      && (j > 0 ==> es[k].key.TableKey? && left[0].size > 0)
  }

  /** The state before the last eviction step was still over the budget. */
  ghost predicate LastStepNeeded(es: seq<Entry>, left: seq<Entry>, k: nat, j: nat, budget: int, chunk: int)
    requires chunk > 0 && Sizes(es) && Cut(es, left, k, j, chunk)
  {
    if j > 0 then Total(left) + chunk >= budget
    else k > 0 ==> Total(left) + Remainder(es[k - 1], chunk) >= budget
  }

  lemma NoStep(es: seq<Entry>, budget: int, chunk: int)
    requires chunk > 0 && Sizes(es)
    ensures Cut(es, es, 0, 0, chunk) && LastStepNeeded(es, es, 0, 0, budget, chunk)
  {
  }

  lemma DropStep(es: seq<Entry>, left: seq<Entry>, k: nat, j: nat, budget: int, chunk: int)
    requires chunk > 0 && Sizes(es) && es != [] && Dropped(es[0], chunk) && Total(es) >= budget
    requires Cut(es[1..], left, k, j, chunk) && LastStepNeeded(es[1..], left, k, j, budget, chunk)
    ensures Cut(es, left, k + 1, j, chunk) && LastStepNeeded(es, left, k + 1, j, budget, chunk)
  {
    assert left != [] ==> es[1..][k] == es[k + 1];
    if j == 0 && k == 0 {
      if left != [] { assert left == [left[0]] + left[1..]; }
      assert left == es[1..];
    } else if j == 0 {
      assert es[1..][k - 1] == es[k];
    }
  }

  lemma ShrinkStep(es: seq<Entry>, left: seq<Entry>, k: nat, j: nat, budget: int, chunk: int)
    requires chunk > 0 && Sizes(es) && es != [] && !Dropped(es[0], chunk) && Total(es) >= budget
    requires Cut(Shrunk(es, chunk), left, k, j, chunk) && Sizes(Shrunk(es, chunk))
    requires LastStepNeeded(Shrunk(es, chunk), left, k, j, budget, chunk)
    ensures var j' := if k == 0 && left != [] then j + 1 else j;
            Cut(es, left, k, j', chunk) && LastStepNeeded(es, left, k, j', budget, chunk)
  {
    var es' := Shrunk(es, chunk);
    assert es'[1..] == es[1..];
    if k == 0 {
      assert left[0].size == es'[0].size - j * chunk == es[0].size - (j + 1) * chunk;
      if j == 0 {
        assert left == [left[0]] + left[1..];
        assert left == es';
      }
    } else {
      assert left != [] ==> es'[k] == es[k];
      assert left != [] ==> es'[k + 1..] == es[k + 1..];
    }
  }

  /** Eviction ends below the budget, removes the oldest entries, shrinks at most the oldest survivor, by
      whole chunks, keeps every newer entry, and takes no step too many. */
  lemma {:induction false} EvictCuts(es: seq<Entry>, budget: int, chunk: int) returns (k: nat, j: nat)
    requires budget > 0 && chunk > 0 && Sizes(es)
    ensures var left := Evict(es, budget, chunk);
            && Total(left) < budget
            && Cut(es, left, k, j, chunk)
            && LastStepNeeded(es, left, k, j, budget, chunk)
    decreases |es|, if es != [] then es[0].size else 0
  {
    var left := Evict(es, budget, chunk);
    if Total(es) < budget {
      k, j := 0, 0;
      NoStep(es, budget, chunk);
    } else if Dropped(es[0], chunk) {
      var k': nat;
      k', j := EvictCuts(EvictOnce(es, chunk), budget, chunk);
      DropStep(es, left, k', j, budget, chunk);
      k := k' + 1;
    } else {
      var j': nat;
      k, j' := EvictCuts(EvictOnce(es, chunk), budget, chunk);
      ShrinkStep(es, left, k, j', budget, chunk);
      j := if k == 0 && left != [] then j' + 1 else j';
    }
  }

  lemma {:induction false} TotalSuffix(es: seq<Entry>, k: nat)
    requires Sizes(es) && k <= |es|
    ensures Total(es) >= Total(es[k..])
    ensures k > 0 ==> Total(es) >= es[k - 1].size + Total(es[k..])
  {
    if k > 0 {
      TotalSuffix(es[1..], k - 1);
      assert es[1..][k - 1..] == es[k..];
      assert Sizes(es[k..]);
      TotalNat(es[k..]);
    }
  }

  /** The last piece of an index is all of it, that of a table at most a chunk, behind whole chunks. */
  lemma {:induction false} RemainderIs(e: Entry, chunk: int) returns (n: nat)
    requires chunk > 0 && e.size >= 0
    ensures Remainder(e, chunk) == e.size - n * chunk && (e.key.IndexKey? ==> n == 0)
    ensures e.key.TableKey? ==> Remainder(e, chunk) <= chunk && (Remainder(e, chunk) > 0 || n == 0)
    decreases e.size
  {
    n := 0;
    if !Dropped(e, chunk) {
      n := RemainderIs(e.(size := e.size - chunk), chunk);
      n := n + 1;
    }
  }

  /** A cut that took a needed last step cannot start below the budget. */
  lemma CutNeedsExcess(es: seq<Entry>, left: seq<Entry>, k: nat, j: nat, budget: int, chunk: int)
    requires chunk > 0 && Sizes(es) && Cut(es, left, k, j, chunk) && (k > 0 || j > 0)
    requires LastStepNeeded(es, left, k, j, budget, chunk)
    ensures Total(es) >= budget
  {
    TotalSuffix(es, k);
    if j > 0 {
      assert es[k..][1..] == left[1..];
      AtLeastOneChunk(j, chunk);
    } else {
      var n := RemainderIs(es[k - 1], chunk);
      AtLeastOneChunk(n, chunk);
      if left != [] { assert left == [left[0]] + left[1..] && es[k..] == [es[k]] + es[k + 1..]; }
      assert es[k..] == left;
    }
  }

  /** Conversely these properties leave only one outcome: eviction is the least cut that meets the budget. */
  lemma {:induction false} EvictUnique(es: seq<Entry>, left: seq<Entry>, k: nat, j: nat, budget: int, chunk: int)
    requires budget > 0 && chunk > 0 && Sizes(es)
    requires Total(left) < budget && Cut(es, left, k, j, chunk) && LastStepNeeded(es, left, k, j, budget, chunk)
    ensures left == Evict(es, budget, chunk)
    decreases |es|, if es != [] then es[0].size else 0
  {
    if Total(es) < budget {
      if k > 0 || j > 0 { CutNeedsExcess(es, left, k, j, budget, chunk); }
      if left != [] { assert left == [left[0]] + left[1..]; }
    } else if Dropped(es[0], chunk) {
      UndoDrop(es, left, k, j, budget, chunk);
      EvictUnique(es[1..], left, k - 1, j, budget, chunk);
    } else {
      UndoShrink(es, left, k, j, budget, chunk);
      EvictUnique(Shrunk(es, chunk), left, k, if k == 0 then j - 1 else j, budget, chunk);
    }
  }

  lemma ZeroCut(es: seq<Entry>, left: seq<Entry>, chunk: int)
    ensures Cut(es, left, 0, 0, chunk) ==> left == es
  {
    if Cut(es, left, 0, 0, chunk) && left != [] {
      assert left == [left[0]] + left[1..];
      assert es == [es[0]] + es[1..];
    }
  }

  lemma AtLeastOneChunk(j: nat, chunk: int)
    requires chunk > 0
    ensures j > 0 ==> j * chunk >= chunk
  {
  }

  lemma UndoDrop(es: seq<Entry>, left: seq<Entry>, k: nat, j: nat, budget: int, chunk: int)
    requires chunk > 0 && Sizes(es) && es != [] && Dropped(es[0], chunk) && Total(es) >= budget
    requires Total(left) < budget && Cut(es, left, k, j, chunk) && LastStepNeeded(es, left, k, j, budget, chunk)
    ensures k > 0 && Cut(es[1..], left, k - 1, j, chunk) && LastStepNeeded(es[1..], left, k - 1, j, budget, chunk)
  {
    ZeroCut(es, left, chunk);
    AtLeastOneChunk(j, chunk);
    assert left != [] ==> es[1..][k - 1] == es[k] && es[1..][k..] == es[k + 1..];
  }

  lemma UndoShrink(es: seq<Entry>, left: seq<Entry>, k: nat, j: nat, budget: int, chunk: int)
    requires chunk > 0 && Sizes(es) && es != [] && !Dropped(es[0], chunk) && Total(es) >= budget
    requires Total(left) < budget && Cut(es, left, k, j, chunk) && LastStepNeeded(es, left, k, j, budget, chunk)
    ensures Sizes(Shrunk(es, chunk)) && (k == 0 ==> j > 0)
    ensures var j' := if k == 0 then j - 1 else j;
            Cut(Shrunk(es, chunk), left, k, j', chunk) && LastStepNeeded(Shrunk(es, chunk), left, k, j', budget, chunk)
  {
    var es' := Shrunk(es, chunk);
    assert es'[1..] == es[1..];
    ZeroCut(es, left, chunk);
    if k == 0 {
      assert (j - 1) * chunk == j * chunk - chunk;
    } else {
      assert left != [] ==> es'[k] == es[k] && es'[k + 1..] == es[k + 1..];
      assert k > 1 ==> es'[k - 1] == es[k - 1];
    }
  }

  /** Without a positive budget no eviction meets it: the loop never ends, not even on an empty cache. */
  lemma NoBudgetNeverMet(es: seq<Entry>, budget: int)
    requires Sizes(es) && budget <= 0
    ensures Total(es) >= budget
  {
    TotalNat(es);
  }

  /** Evicting again changes nothing. */
  lemma EvictStable(es: seq<Entry>, budget: int, chunk: int)
    requires budget > 0 && chunk > 0 && Sizes(es)
    ensures Evict(Evict(es, budget, chunk), budget, chunk) == Evict(es, budget, chunk)
  {
    var k, j := EvictCuts(es, budget, chunk);
  }

  ghost predicate HasKey(es: seq<Entry>, key: Key) {
    exists i :: 0 <= i < |es| && es[i].key == key
  }

  /** The cached size of a key, 0 when it is absent. */
  function Loaded(es: seq<Entry>, key: Key): int {
    if es == [] then 0 else if es[0].key == key then es[0].size else Loaded(es[1..], key)
  }

  lemma {:induction false} LoadedAt(es: seq<Entry>, i: nat)
    requires i < |es| && forall j :: 0 <= j < i ==> es[j].key != es[i].key
    ensures Loaded(es, es[i].key) == es[i].size
  {
    if i > 0 { LoadedAt(es[1..], i - 1); }
  }

  lemma {:induction false} LoadedAbsent(es: seq<Entry>, key: Key)
    requires !HasKey(es, key)
    ensures Loaded(es, key) == 0
  {
    if es != [] {
      assert es[0].key != key;
      assert forall i :: 0 <= i < |es[1..]| ==> es[1..][i] == es[i + 1];
      LoadedAbsent(es[1..], key);
    }
  }

  /** Loading an index or a table: it becomes the newest entry unless it has one, and then others may have
      to go. */
  ghost function Load(es: seq<Entry>, e: Entry, budget: int, chunk: int): (left: seq<Entry>)
    requires budget > 0 && chunk > 0 && Sizes(es) && e.size >= 0
    ensures Sizes(left)
  {
    Evict(if HasKey(es, e.key) then es else es + [e], budget, chunk)
  }

  /** After a load there is nothing left to evict. */
  lemma LoadStable(es: seq<Entry>, e: Entry, budget: int, chunk: int)
    requires budget > 0 && chunk > 0 && Sizes(es) && e.size >= 0
    ensures Evict(Load(es, e, budget, chunk), budget, chunk) == Load(es, e, budget, chunk)
  {
    EvictStable(if HasKey(es, e.key) then es else es + [e], budget, chunk);
  }

  lemma {:induction false} TotalAppend(es: seq<Entry>, e: Entry)
    ensures Total(es + [e]) == Total(es) + e.size
  {
    if es == [] {
      assert [e][1..] == [];
    } else {
      assert (es + [e])[1..] == es[1..] + [e];
      TotalAppend(es[1..], e);
    }
  }

  /** Eviction never touches the newest entry when that alone is below the budget. */
  lemma {:induction false} NewestSurvives(es: seq<Entry>, e: Entry, budget: int, chunk: int)
    requires budget > 0 && chunk > 0 && Sizes(es) && 0 <= e.size < budget
    ensures var left := Evict(es + [e], budget, chunk); left != [] && left[|left| - 1] == e
    decreases |es|, if es != [] then es[0].size else 0
  {
    var all := es + [e];
    TotalAppend(es, e);
    if Total(all) >= budget {
      assert es != [];
      if Dropped(es[0], chunk) {
        assert EvictOnce(all, chunk) == es[1..] + [e];
        NewestSurvives(es[1..], e, budget, chunk);
      } else {
        assert EvictOnce(all, chunk) == Shrunk(es, chunk) + [e];
        NewestSurvives(Shrunk(es, chunk), e, budget, chunk);
      }
    }
  }

  /** What a load leaves: a key that has an entry keeps it, and evicting is all that happens; a new one is
      cached in full if it can be at all, and displaces nothing if there is room for it. */
  lemma LoadCaches(es: seq<Entry>, e: Entry, budget: int, chunk: int)
    requires budget > 0 && chunk > 0 && Sizes(es) && e.size >= 0
    ensures var left := Load(es, e, budget, chunk);
            if exists i :: 0 <= i < |es| && es[i].key == e.key then left == Evict(es, budget, chunk)
            else
              && left == Evict(es + [e], budget, chunk)
              && (Total(es) + e.size < budget ==> left == es + [e])
              && (e.size < budget ==> left != [] && left[|left| - 1] == e)
  {
    TotalAppend(es, e);
    if e.size < budget { NewestSurvives(es, e, budget, chunk); }
  }
}
