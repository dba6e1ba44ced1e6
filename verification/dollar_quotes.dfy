/** Dollar-quoted strings: the scanner's longest-match rules against the first occurrence of the delimiter. */
module DollarQuotes {
  import opened LongestMatch
  import opened Options
  import opened Utf8
  import opened Literals

  const DOLLAR: byte := '$' as int
  const NEWLINE: byte := '\n' as int

  predicate IsLetter(b: byte) {
    'A' as int <= b <= 'Z' as int || 'a' as int <= b <= 'z' as int
  }

  predicate IsDolqStart(b: byte) {
    IsLetter(b) || b >= 0x80 || b == '_' as int
  }

  predicate IsDolqCont(b: byte) {
    IsDolqStart(b) || '0' as int <= b <= '9' as int
  }

  const LETTERS := "abcdefghijklmnopqrstuvwxyz"
  const DIGITS := "0123456789"

  /** A letter or, 32 places before it, its upper case. */
  lemma LetterIff(b: byte)
    ensures IsLetter(b) <==> exists k :: 0 <= k < 26 && LETTERS[k] as int - b in {0, 32}
  {
    if IsLetter(b) {
      var k := if b <= 'Z' as int then b - 'A' as int else b - 'a' as int;
      assert LETTERS[k] as int - b in {0, 32};
    }
  }

  /** A tag starts with a letter, an underscore or a byte above 127, and digits may follow. */
  lemma TagCharsIff(b: byte)
    ensures IsDolqStart(b) <==> b >= 128 || b == '_' as int || exists k :: 0 <= k < 26 && LETTERS[k] as int - b in {0, 32}
    ensures IsDolqCont(b) <==> IsDolqStart(b) || exists k :: 0 <= k < 10 && DIGITS[k] as int == b
  {
    LetterIff(b);
    if IsDolqCont(b) && !IsDolqStart(b) { assert DIGITS[b - '0' as int] as int == b; }
  }

  /** The rules of the dollar-quote state, in the order of the rule file. */
  datatype Rule = DolqDelim | DolqInside | DolqFailed | Any

  function Rank(r: Rule): nat {
    match r case DolqDelim => 0 case DolqInside => 1 case DolqFailed => 2 case Any => 3
  }

  /** A tag: nothing, or an identifier without dollar signs. */
  ghost predicate IsTag(w: seq<byte>) {
    w == [] || (IsDolqStart(w[0]) && forall i :: 0 <= i < |w| ==> IsDolqCont(w[i]))
  }

  ghost predicate IsDelim(w: seq<byte>) {
    |w| >= 2 && w[0] == DOLLAR && w[|w| - 1] == DOLLAR && IsTag(w[1..|w| - 1])
  }

  /** The regular expression of each rule. */
  ghost predicate Matches(r: Rule, w: seq<byte>) {
    match r
    case DolqDelim => IsDelim(w)
    case DolqInside => |w| >= 1 && forall i :: 0 <= i < |w| ==> w[i] != DOLLAR
    case DolqFailed => |w| >= 2 && w[0] == DOLLAR && IsTag(w[1..])
    case Any => |w| == 1 && w[0] != NEWLINE
  }

  ghost predicate OccursAt(s: seq<byte>, i: nat, d: seq<byte>) {
    i + |d| <= |s| && s[i..i + |d|] == d
  }

  /** How far the scanner moves on after a token that does not end the string: the last dollar sign of a
      wrong delimiter is put back. */
  function Advance(r: Rule, len: nat): nat {
    if r == DolqDelim && len > 0 then len - 1 else len
  }

  /** Inside a delimiter there is no further dollar sign. */
  lemma DollarsAtEnds(w: seq<byte>, i: nat)
    requires IsDelim(w) && 0 < i < |w| - 1
    ensures w[i] != DOLLAR && IsDolqCont(w[i]) && (i == 1 ==> IsDolqStart(w[i]))
  {
    assert w[1..|w| - 1][i - 1] == w[i];
  }

  lemma NoDollarInFailed(w: seq<byte>, i: nat)
    requires Matches(DolqFailed, w) && 0 < i < |w|
    ensures w[i] != DOLLAR && IsDolqCont(w[i]) && (i == 1 ==> IsDolqStart(w[i]))
  {
    assert w[1..][i - 1] == w[i];
  }

  /** Only the first and, in a delimiter, the last character of a token can be dollar signs. */
  lemma DollarsOfToken(s: seq<byte>, i: nat, r: Rule, len: nat, k: nat)
    requires MatchesAt(Matches, s, i, r, len) && 0 < k < Advance(r, len)
    ensures s[i + k] != DOLLAR
  {
    var w := s[i..i + len];
    assert s[i + k] == w[k];
    if r == DolqDelim {
      DollarsAtEnds(w, k);
    } else if r == DolqFailed {
      NoDollarInFailed(w, k);
    }
  }

  lemma DelimAt(s: seq<byte>, i: nat, d: seq<byte>)
    requires IsDelim(d) && OccursAt(s, i, d)
    ensures s[i + |d| - 1] == DOLLAR && forall k :: i < k < i + |d| - 1 ==> s[k] != DOLLAR
  {
    assert s[i + |d| - 1] == s[i..i + |d|][|d| - 1];
    forall k | i < k < i + |d| - 1 ensures s[k] != DOLLAR {
      DollarsAtEnds(d, k - i);
      assert s[k] == s[i..i + |d|][k - i];
    }
  }

  /** Two delimiters that start at the same place are the same. */
  lemma SameDelim(s: seq<byte>, i: nat, d: seq<byte>, len: nat)
    requires IsDelim(d) && OccursAt(s, i, d) && MatchesAt(Matches, s, i, DolqDelim, len)
    ensures len == |d|
  {
    DelimAt(s, i, d);
    DelimAt(s, i, s[i..i + len]);
  }

  /** Whatever token is picked: it ends the string exactly when the delimiter stands here, and otherwise
      the delimiter starts nowhere in the text that is passed. */
  lemma TokenPassesNoDelim(s: seq<byte>, i: nat, r: Rule, len: nat, d: seq<byte>)
    requires i < |s| && Chosen(Matches, Rank, s, i, r, len) && IsDelim(d)
    ensures len > 0 && i + len <= |s| && Advance(r, len) > 0
    ensures OccursAt(s, i, d) <==> r == DolqDelim && s[i..i + len] == d
    ensures !OccursAt(s, i, d) ==> forall k :: i <= k < i + Advance(r, len) ==> !OccursAt(s, k, d)
  {
    forall k | i < k < i + Advance(r, len) ensures s[k] != DOLLAR {
      DollarsOfToken(s, i, r, len, k - i);
    }
    if OccursAt(s, i, d) {
      assert MatchesAt(Matches, s, i, DolqDelim, |d|);
      assert s[i + |d| - 1] == d[|d| - 1] == DOLLAR;
      if r == DolqDelim { SameDelim(s, i, d, len); }
    }
    forall k | i < k < i + Advance(r, len) ensures !OccursAt(s, k, d) {
      if k + |d| <= |s| { assert s[k..k + |d|][0] == s[k]; }
    }
  }

  /** The length of the tag characters from `i` on. */
  method TagRun(s: seq<byte>, i: nat) returns (len: nat)
    requires i <= |s|
    ensures i + len <= |s| && IsTag(s[i..i + len])
    ensures i + len < |s| ==> (if len == 0 then !IsDolqStart(s[i]) else !IsDolqCont(s[i + len]))
  {
    len := 0;
    if i < |s| && IsDolqStart(s[i]) {
      len := 1;
      while i + len < |s| && IsDolqCont(s[i + len])
        invariant 1 <= len <= |s| - i && forall k :: i <= k < i + len ==> IsDolqCont(s[k])
      {
        len := len + 1;
      }
    }
  }

  method InsideRun(s: seq<byte>, i: nat) returns (len: nat)
    requires i <= |s|
    ensures i + len <= |s| && forall k :: i <= k < i + len ==> s[k] != DOLLAR
    ensures i + len < |s| ==> s[i + len] == DOLLAR
  {
    len := 0;
    while i + len < |s| && s[i + len] != DOLLAR
      invariant i + len <= |s| && forall k :: i <= k < i + len ==> s[k] != DOLLAR
    {
      len := len + 1;
    }
  }

  lemma InsideLongest(s: seq<byte>, i: nat, n: nat)
    requires 1 <= n && i + n <= |s| && forall k :: i <= k < i + n ==> s[k] != DOLLAR
    requires i + n < |s| ==> s[i + n] == DOLLAR
    ensures Chosen(Matches, Rank, s, i, DolqInside, n)
  {
    var w := s[i..i + n];
    assert forall k :: 0 <= k < n ==> w[k] == s[i + k];
    forall r, m: nat | MatchesAt(Matches, s, i, r, m) ensures m < n || (m == n && Rank(DolqInside) <= Rank(r)) {
      var v := s[i..i + m];
      assert v[0] == s[i];
    }
  }

  /** No rule matches beyond the tag and a closing dollar sign. */
  lemma TagEnds(s: seq<byte>, i: nat, n: nat, r: Rule, m: nat)
    requires i + 1 + n <= |s| && s[i] == DOLLAR && IsTag(s[i + 1..i + 1 + n])
    requires i + 1 + n < |s| ==> (if n == 0 then !IsDolqStart(s[i + 1]) else !IsDolqCont(s[i + 1 + n]))
    requires MatchesAt(Matches, s, i, r, m)
    ensures r == DolqDelim ==> m == n + 2 && i + 1 + n < |s| && s[i + 1 + n] == DOLLAR
    ensures r == DolqFailed ==> m <= n + 1
    ensures r == Any ==> m == 1
    ensures r != DolqInside
  {
    var v := s[i..i + m];
    assert v[0] == s[i];
    forall k | i < k < i + 1 + n ensures IsDolqCont(s[k]) {
      assert s[i + 1..i + 1 + n][k - i - 1] == s[k];
    }
    if r == DolqDelim {
      assert v[m - 1] == s[i + m - 1];
      forall k | i < k < i + m - 1 ensures IsDolqCont(s[k]) && (k == i + 1 ==> IsDolqStart(s[k])) {
        DollarsAtEnds(v, k - i);
      }
    } else if r == DolqFailed {
      forall k | i < k < i + m ensures IsDolqCont(s[k]) && (k == i + 1 ==> IsDolqStart(s[k])) {
        NoDollarInFailed(v, k - i);
      }
    }
  }

  lemma DollarLongest(s: seq<byte>, i: nat, n: nat)
    requires i + 1 + n <= |s| && s[i] == DOLLAR && IsTag(s[i + 1..i + 1 + n])
    requires i + 1 + n < |s| ==> (if n == 0 then !IsDolqStart(s[i + 1]) else !IsDolqCont(s[i + 1 + n]))
    ensures i + 1 + n < |s| && s[i + 1 + n] == DOLLAR ==> Chosen(Matches, Rank, s, i, DolqDelim, n + 2)
    ensures !(i + 1 + n < |s| && s[i + 1 + n] == DOLLAR) ==>
      if n > 0 then Chosen(Matches, Rank, s, i, DolqFailed, n + 1) else Chosen(Matches, Rank, s, i, Any, 1)
  {
    var closed := i + 1 + n < |s| && s[i + 1 + n] == DOLLAR;
    var (best, len) := if closed then (DolqDelim, n + 2) else if n > 0 then (DolqFailed, n + 1) else (Any, 1);
    var w := s[i..i + len];
    assert w[0] == DOLLAR;
    assert forall k :: 0 <= k < len ==> w[k] == s[i + k];
    assert n > 0 || closed ==> w[1..1 + n] == s[i + 1..i + 1 + n];
    if closed { assert w[n + 1] == DOLLAR; } else if n > 0 { assert w[1..] == w[1..1 + n]; }
    assert MatchesAt(Matches, s, i, best, len);
    forall r, m: nat | MatchesAt(Matches, s, i, r, m) ensures m < len || (m == len && Rank(best) <= Rank(r)) {
      TagEnds(s, i, n, r, m);
    }
  }

  /** Finds the chosen token. */
  method NextToken(s: seq<byte>, i: nat) returns (r: Rule, len: nat)
    requires i < |s|
    ensures Chosen(Matches, Rank, s, i, r, len)
  {
    if s[i] != DOLLAR {
      var n := InsideRun(s, i);
      InsideLongest(s, i, n);
      return DolqInside, n;
    }
    var n := TagRun(s, i + 1);
    DollarLongest(s, i, n);
    if i + 1 + n < |s| && s[i + 1 + n] == DOLLAR {
      return DolqDelim, n + 2;
    } else if n > 0 {
      return DolqFailed, n + 1;
    } else {
      return Any, 1;
    }
  }

  lemma Adjoined(s: seq<byte>, start: nat, pos: nat, len: nat, taken: nat)
    requires start <= pos && taken <= len && pos + len <= |s|
    ensures s[start..pos] + s[pos..pos + len][..taken] == s[start..pos + taken]
  {
  }

  /** The action of a token that does not end the string. */
  method Collect(lit: LiteralBuffer, r: Rule, yytext: seq<byte>)
    requires lit.Valid() && Matches(r, yytext)
    modifies lit, lit.literalbuf
    ensures lit.Valid() && lit.Contents() == old(lit.Contents()) + yytext[..Advance(r, |yytext|)]
    ensures lit.literalbuf == old(lit.literalbuf) || fresh(lit.literalbuf)
  {
    match r
    case DolqDelim =>
      lit.AddLit(yytext[..|yytext| - 1]);
    case Any =>
      assert yytext[..1] == [yytext[0]];
      lit.AddLitChar(yytext[0]);
    case _ =>
      assert yytext[..|yytext|] == yytext;
      lit.AddLit(yytext);
  }

  /** Scans a dollar-quoted string from behind its opening delimiter. The text collected is exactly what
      stands before the first occurrence of that delimiter; without one the string is unterminated. */
  method ScanDollarQuote(s: seq<byte>, start: nat, dolqstart: seq<byte>, lit: LiteralBuffer) returns (end: Option<nat>)
    requires start <= |s| && IsDelim(dolqstart) && lit.Valid()
    modifies lit, lit.literalbuf
    ensures lit.Valid()
    ensures end.None? <==> forall k :: start <= k ==> !OccursAt(s, k, dolqstart)
    ensures end.Some? ==> exists k ::
      && start <= k <= |s| && OccursAt(s, k, dolqstart) && (forall j :: start <= j < k ==> !OccursAt(s, j, dolqstart))
      && end.value == k + |dolqstart| && lit.Contents() == s[start..k]
  {
    lit.literallen := 0;
    var pos := start;
    while pos < |s|
      invariant start <= pos <= |s| && lit.Valid() && lit.Contents() == s[start..pos]
      invariant lit.literalbuf == old(lit.literalbuf) || fresh(lit.literalbuf)
      invariant forall k :: start <= k < pos ==> !OccursAt(s, k, dolqstart)
    {
      var r, len := NextToken(s, pos);
      TokenPassesNoDelim(s, pos, r, len, dolqstart);
      var yytext := s[pos..pos + len];
      if r == DolqDelim && yytext == dolqstart {
        return Some(pos + len);
      }
      Adjoined(s, start, pos, len, Advance(r, len));
      Collect(lit, r, yytext);
      pos := pos + Advance(r, len);  // the last dollar sign of another delimiter is put back
    }
    return None;
  }
}
