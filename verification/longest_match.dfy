/** How a scanner picks a rule. */
module LongestMatch {

  ghost predicate MatchesAt<C, R>(matches: (R, seq<C>) -> bool, s: seq<C>, i: nat, r: R, len: nat) {
    i + len <= |s| && matches(r, s[i..i + len])
  }

  /** The longest match, and among equally long ones the rule of the lowest rank. */
  ghost predicate Chosen<C, R(!new)>(matches: (R, seq<C>) -> bool, rank: R -> nat, s: seq<C>, i: nat, r: R, len: nat) {
    MatchesAt(matches, s, i, r, len) &&
    forall r', len': nat {:trigger MatchesAt(matches, s, i, r', len')} :: MatchesAt(matches, s, i, r', len') ==>
      len' < len || (len' == len && rank(r) <= rank(r'))
  }
}
