/** The order in which a std::map keyed by strings is walked. */
module Names {

  predicate Leq(a: string, b: string) {
    if a == "" then true
    else if b == "" then false
    else a[0] < b[0] || (a[0] == b[0] && Leq(a[1..], b[1..]))
  }

  /** The names agree up to a place where `a` ends or has the smaller character. */
  ghost predicate SmallerAt(a: string, b: string, k: nat) {
    k <= |a| && k <= |b| && a[..k] == b[..k] && (k == |a| || (k < |b| && a[k] < b[k]))
  }

  /** It is the lexicographic order. */
  lemma {:induction false} LeqFirstDifference(a: string, b: string)
    ensures Leq(a, b) <==> exists k: nat :: SmallerAt(a, b, k)
  {
    if a == "" {
      assert SmallerAt(a, b, 0);
    } else if b != "" {
      LeqFirstDifference(a[1..], b[1..]);
      if a[0] < b[0] { assert SmallerAt(a, b, 0); }
      forall k: nat | SmallerAt(a[1..], b[1..], k) && a[0] == b[0] ensures SmallerAt(a, b, k + 1) {
        assert a[..k + 1] == [a[0]] + a[1..][..k] && b[..k + 1] == [b[0]] + b[1..][..k];
      }
      forall k: nat | SmallerAt(a, b, k) && k > 0 ensures a[0] == b[0] && SmallerAt(a[1..], b[1..], k - 1) {
        assert a[0] == a[..k][0] && b[0] == b[..k][0];
        assert a[1..][..k - 1] == a[..k][1..] && b[1..][..k - 1] == b[..k][1..];
      }
    }
  }

  lemma {:induction false} LeqTotal(a: string, b: string)
    ensures Leq(a, b) || Leq(b, a)
  {
    if a != "" && b != "" && a[0] == b[0] { LeqTotal(a[1..], b[1..]); }
  }

  lemma {:induction false} LeqTransitive(a: string, b: string, c: string)
    requires Leq(a, b) && Leq(b, c)
    ensures Leq(a, c)
  {
    if a != "" && a[0] == b[0] == c[0] { LeqTransitive(a[1..], b[1..], c[1..]); }
  }

  lemma {:induction false} LeqAntisymmetric(a: string, b: string)
    requires Leq(a, b) && Leq(b, a)
    ensures a == b
  {
    if a != "" && b != "" {
      LeqAntisymmetric(a[1..], b[1..]);
      assert a == [a[0]] + a[1..] && b == [b[0]] + b[1..];
    }
  }

  ghost predicate IsFirst(x: string, names: set<string>) {
    x in names && forall y :: y in names ==> Leq(x, y)
  }

  /** A map that is not empty has a first key. */
  lemma {:induction false} FirstExists(names: set<string>) returns (x: string)
    requires names != {}
    ensures IsFirst(x, names)
    decreases |names|
  {
    var y :| y in names;
    LeqTotal(y, y);
    if names == {y} {
      x := y;
    } else {
      var z := FirstExists(names - {y});
      LeqTotal(y, z);
      x := if Leq(y, z) then y else z;
      forall w | w in names ensures Leq(x, w) {
        if w != y && x == y { LeqTransitive(y, z, w); }
      }
    }
  }
}
