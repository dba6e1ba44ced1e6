/** C-style comments: the scanner's longest-match rules against a plain nesting counter. */
module Comments {
  import opened LongestMatch
  import opened Options

  predicate IsOpChar(c: char) {
    c in "~!@#^&|`?+-*/%<>="
  }

  /** The rules of the comment state, in the order of the rule file. */
  datatype Rule = XcStart | XcStop | XcInside | OpChar | Stars

  function Rank(r: Rule): nat {
    match r case XcStart => 0 case XcStop => 1 case XcInside => 2 case OpChar => 3 case Stars => 4
  }

  /** The regular expression of each rule. */
  ghost predicate Matches(r: Rule, w: string) {
    match r
    case XcStart => |w| >= 2 && w[0] == '/' && w[1] == '*' && forall i :: 2 <= i < |w| ==> IsOpChar(w[i])
    case XcStop => |w| >= 2 && w[|w| - 1] == '/' && forall i :: 0 <= i < |w| - 1 ==> w[i] == '*'
    case XcInside => |w| >= 1 && forall i :: 0 <= i < |w| ==> w[i] != '*' && w[i] != '/'
    case OpChar => |w| == 1 && IsOpChar(w[0])
    case Stars => |w| >= 1 && forall i :: 0 <= i < |w| ==> w[i] == '*'
  }

  /** Where a comment ends that is `depth` levels deep inside another, counting character by character;
      None when the input ends first. */
  function Nested(s: string, i: nat, depth: nat): Option<nat>
    requires i <= |s|
    decreases |s| - i
  {
    if |s| - i < 2 then None
    else if s[i] == '/' && s[i + 1] == '*' then Nested(s, i + 2, depth + 1)
    else if s[i] == '*' && s[i + 1] == '/' then
      if depth == 0 then Some(i + 2) else Nested(s, i + 2, depth - 1)
    else Nested(s, i + 1, depth)
  }

  /** Characters that neither open nor close anything can be skipped together. */
  lemma {:induction false} NestedSkips(s: string, i: nat, len: nat, depth: nat)
    requires i + len <= |s|
    requires forall k :: i <= k < i + len ==>
      !(k + 1 < |s| && s[k] == '/' && s[k + 1] == '*') && !(k + 1 < |s| && s[k] == '*' && s[k + 1] == '/')
    ensures Nested(s, i, depth) == Nested(s, i + len, depth)
    decreases len
  {
    if len > 0 { NestedSkips(s, i + 1, len - 1, depth); }
  }

  /** Whatever token the scanner picks, its action keeps in step with the nesting counter. */
  lemma TokenKeepsStep(s: string, i: nat, r: Rule, len: nat, depth: nat)
    requires i < |s| && Chosen(Matches, Rank, s, i, r, len)
    ensures len > 0
    ensures r.XcStart? ==> len >= 2 && Nested(s, i, depth) == Nested(s, i + 2, depth + 1)
    ensures r.XcStop? ==> Nested(s, i, depth) == if depth == 0 then Some(i + len) else Nested(s, i + len, depth - 1)
    ensures !r.XcStart? && !r.XcStop? ==> Nested(s, i, depth) == Nested(s, i + len, depth)
  {
    var w := s[i..i + len];
    forall k | i <= k < i + len ensures s[k] == w[k - i] {
    }
    match r
    case XcStart =>
    case XcStop =>
      NestedSkips(s, i, len - 2, depth);
    case XcInside =>
      NestedSkips(s, i, len, depth);
    case OpChar =>
      NoLonger(s, i, r, len);
      NestedSkips(s, i, 1, depth);
    case Stars =>
      NoLonger(s, i, r, len);
      NestedSkips(s, i, len, depth);
  }

  /** What a rule that ignores its text leaves behind: no opening or closing was overlooked. */
  lemma NoLonger(s: string, i: nat, r: Rule, len: nat)
    requires i < |s| && Chosen(Matches, Rank, s, i, r, len) && (r.OpChar? || r.Stars?)
    ensures s[i] == '/' && i + 1 < |s| ==> s[i + 1] != '*'
    ensures s[i] == '*' && i + len < |s| ==> s[i + len] != '/'
  {
    StartMatches(s, i);
    StopMatches(s, i, r, len);
  }

  lemma StartMatches(s: string, i: nat)
    ensures i + 1 < |s| && s[i] == '/' && s[i + 1] == '*' ==> MatchesAt(Matches, s, i, XcStart, 2)
  {
    if i + 1 < |s| && s[i] == '/' && s[i + 1] == '*' { assert s[i..i + 2] == ['/', '*']; }
  }

  lemma StopMatches(s: string, i: nat, r: Rule, len: nat)
    requires MatchesAt(Matches, s, i, r, len) && (r.OpChar? || r.Stars?)
    ensures s[i] == '*' && i + len < |s| && s[i + len] == '/' ==> MatchesAt(Matches, s, i, XcStop, len + 1)
  {
    if s[i] == '*' && i + len < |s| && s[i + len] == '/' {
      assert s[i..i + len + 1] == s[i..i + len] + ['/'];
      assert s[i..i + len][0] == '*';
    }
  }

  /** The length of the run of characters from `i` on that satisfy `keep`. */
  method Run(s: string, i: nat, keep: char -> bool) returns (len: nat)
    requires i <= |s|
    ensures i + len <= |s| && (forall k :: i <= k < i + len ==> keep(s[k])) && (i + len < |s| ==> !keep(s[i + len]))
  {
    len := 0;
    while i + len < |s| && keep(s[i + len])
      invariant i + len <= |s| && forall k :: i <= k < i + len ==> keep(s[k])
    {
      len := len + 1;
    }
  }

  lemma StartIsLongest(s: string, i: nat, len: nat)
    requires 2 <= len && i + len <= |s| && s[i] == '/' && s[i + 1] == '*'
    requires forall k :: i + 2 <= k < i + len ==> IsOpChar(s[k])
    requires i + len < |s| ==> !IsOpChar(s[i + len])
    ensures Chosen(Matches, Rank, s, i, XcStart, len)
  {
    var w := s[i..i + len];
    assert forall k :: 0 <= k < len ==> w[k] == s[i + k];
    forall r, n: nat | MatchesAt(Matches, s, i, r, n) ensures n < len || (n == len && Rank(XcStart) <= Rank(r)) {
      var v := s[i..i + n];
      assert v[0] == '/';
    }
  }

  lemma SlashIsAlone(s: string, i: nat)
    requires i < |s| && s[i] == '/' && (i + 1 < |s| ==> s[i + 1] != '*')
    ensures Chosen(Matches, Rank, s, i, OpChar, 1)
  {
    assert s[i..i + 1] == ['/'];
    forall r, n: nat | MatchesAt(Matches, s, i, r, n) ensures n < 1 || (n == 1 && Rank(OpChar) <= Rank(r)) {
      var v := s[i..i + n];
      assert v[0] == '/';
    }
  }

  lemma StarsLongest(s: string, i: nat, n: nat)
    requires 1 <= n && i + n <= |s| && (forall k :: i <= k < i + n ==> s[k] == '*') && (i + n < |s| ==> s[i + n] != '*')
    ensures i + n < |s| && s[i + n] == '/' ==> Chosen(Matches, Rank, s, i, XcStop, n + 1)
    ensures !(i + n < |s| && s[i + n] == '/') ==> Chosen(Matches, Rank, s, i, if n == 1 then OpChar else Stars, n)
  {
    var w := s[i..i + n];
    assert forall k :: 0 <= k < n ==> w[k] == s[i + k];
    var stop := i + n < |s| && s[i + n] == '/';
    if stop {
      var u := s[i..i + (n + 1)];
      assert forall k :: 0 <= k <= n ==> u[k] == s[i + k];
      assert MatchesAt(Matches, s, i, XcStop, n + 1);
    }
    var (best, len) := if stop then (XcStop, n + 1) else (if n == 1 then OpChar else Stars, n);
    forall r, m: nat | MatchesAt(Matches, s, i, r, m) ensures m < len || (m == len && Rank(best) <= Rank(r)) {
      var v := s[i..i + m];
      assert v[0] == s[i] == '*';
      assert v[m - 1] == s[i + m - 1];
      if m > n { assert v[n] == s[i + n]; }
    }
  }

  lemma InsideIsLongest(s: string, i: nat, n: nat)
    requires 1 <= n && i + n <= |s| && (forall k :: i <= k < i + n ==> s[k] != '*' && s[k] != '/')
    requires i + n < |s| ==> s[i + n] == '*' || s[i + n] == '/'
    ensures Chosen(Matches, Rank, s, i, XcInside, n)
  {
    var w := s[i..i + n];
    assert forall k :: 0 <= k < n ==> w[k] == s[i + k];
    forall r, m: nat | MatchesAt(Matches, s, i, r, m) ensures m < n || (m == n && Rank(XcInside) <= Rank(r)) {
      var v := s[i..i + m];
      assert forall k :: 0 <= k < m ==> v[k] == s[i + k];
      assert v[0] == s[i];
    }
  }

  /** Finds the chosen token. */
  method NextToken(s: string, i: nat) returns (r: Rule, len: nat)
    requires i < |s|
    ensures Chosen(Matches, Rank, s, i, r, len)
  {
    if s[i] == '/' {
      if i + 1 < |s| && s[i + 1] == '*' {
        var n := Run(s, i + 2, (c: char) => IsOpChar(c));
        r, len := XcStart, n + 2;
        StartIsLongest(s, i, len);
      } else {
        r, len := OpChar, 1;
        SlashIsAlone(s, i);
      }
    } else if s[i] == '*' {
      var n := Run(s, i, (c: char) => c == '*');
      if i + n < |s| && s[i + n] == '/' {
        r, len := XcStop, n + 1;
      } else {
        r, len := if n == 1 then OpChar else Stars, n;
      }
      StarsLongest(s, i, n);
    } else {
      var n := Run(s, i, (c: char) => c != '*' && c != '/');
      r, len := XcInside, n;
      InsideIsLongest(s, i, n);
    }
  }

  /** Scans a comment from behind its opening; None is the unterminated-comment error. */
  method ScanComment(s: string, start: nat) returns (end: Option<nat>)
    requires start <= |s|
    ensures end == Nested(s, start, 0)
  {
    var pos, xcdepth: nat := start, 0;
    while pos < |s|
      invariant start <= pos <= |s| && Nested(s, pos, xcdepth) == Nested(s, start, 0)
    {
      var r, len := NextToken(s, pos);
      TokenKeepsStep(s, pos, r, len, xcdepth);
      match r
      case XcStart =>
        xcdepth := xcdepth + 1;
        pos := pos + 2;  // the rest of the match is put back
      case XcStop =>
        if xcdepth <= 0 {
          return Some(pos + len);
        }
        xcdepth := xcdepth - 1;
        pos := pos + len;
      case _ =>
        pos := pos + len;
    }
    return None;
  }
}
