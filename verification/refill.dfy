/** The scanner engine's input buffer: refilling it without losing input. */
module Refill {
  import opened Options
  import opened Utf8

  const YY_READ_BUF_SIZE := 8192
  const YY_END_OF_BUFFER_CHAR: byte := 0
  const NEWLINE: byte := '\n' as int

  datatype Status = YY_BUFFER_NEW | YY_BUFFER_NORMAL | YY_BUFFER_EOF_PENDING

  datatype Action = EOB_ACT_CONTINUE_SCAN | EOB_ACT_END_OF_FILE | EOB_ACT_LAST_MATCH | FatalOverflow | FatalMissed

  predicate IsFatal(act: Action) {
    act.FatalOverflow? || act.FatalMissed?
  }

  lemma SliceStart(s: seq<byte>, lo: nat, hi: nat, n: nat)
    requires lo + n <= hi <= |s|
    ensures s[lo..hi][..n] == s[lo..lo + n]
  {
  }

  lemma SameRest(before: seq<byte>, rest: seq<byte>, rest': seq<byte>)
    requires before + rest == before + rest'
    ensures rest == rest'
  {
    assert (before + rest)[|before|..] == rest && (before + rest')[|before|..] == rest';
  }

  lemma Regrouped(a: seq<byte>, b: seq<byte>, c: seq<byte>, d: seq<byte>)
    ensures a + (b + c + d) == a + b + (c + d) && b + c + d == b + (c + d)
  {
  }

  /** The scanner's transition tables, as an automaton. */
  datatype Automaton = Automaton(start: nat, step: (nat, byte) -> Option<nat>, accepts: nat -> bool) {
    /** Nothing is matched by an empty text, and the default rule matches any single character. */
    ghost predicate Valid() {
      !accepts(start) && forall c :: step(start, c).Some? && accepts(step(start, c).value)
    }

    /** The state after the first `n` characters, if there is one. */
    function StateAfter(s: seq<byte>, n: nat): Option<nat>
      requires n <= |s|
    {
      if n == 0 then Some(start)
      else
        match StateAfter(s, n - 1)
        case None => None
        case Some(q) => step(q, s[n - 1])
    }

    ghost predicate Accepted(s: seq<byte>, n: nat) {
      n <= |s| && StateAfter(s, n).Some? && accepts(StateAfter(s, n).value)
    }

    ghost predicate IsLongest(s: seq<byte>, n: nat) {
      Accepted(s, n) && forall k: nat :: Accepted(s, k) ==> k <= n
    }

    /** Without a transition nothing longer is matched. */
    lemma {:induction false} Jammed(s: seq<byte>, n: nat, k: nat)
      requires n <= k <= |s| && StateAfter(s, n) == None
      ensures StateAfter(s, k) == None
    {
      if n < k { Jammed(s, n, k - 1); }
    }

    /** After `i` characters in state `q`, `best` of which are the longest match up to the one before the last. */
    ghost predicate Reading(s: seq<byte>, q: nat, i: nat, best: nat) {
      && best <= i <= |s| && StateAfter(s, i) == Some(q) && (best > 0 ==> Accepted(s, best))
      && forall k: nat :: k < i && Accepted(s, k) ==> k <= best
    }

    function Best(q: nat, i: nat, best: nat): nat {
      if accepts(q) then i else best
    }

    lemma ReadOne(s: seq<byte>, q: nat, i: nat, best: nat)
      requires Valid() && s != [] && Reading(s, q, i, best)
      ensures Best(q, i, best) <= i
      ensures i < |s| && step(q, s[i]).Some? ==> Reading(s, step(q, s[i]).value, i + 1, Best(q, i, best))
      ensures i == |s| || step(q, s[i]) == None ==> Best(q, i, best) > 0 && IsLongest(s, Best(q, i, best))
    {
      var n := Best(q, i, best);
      if i == |s| || step(q, s[i]) == None {
        forall k: nat | Accepted(s, k) ensures k <= n {
          if k > i { Jammed(s, i + 1, k); }
        }
        assert StateAfter(s, 0) == Some(start) && StateAfter(s, 1) == step(start, s[0]);
        assert Accepted(s, 1);
      }
    }

    /** The tokens of a part of the input: each is the longest match where it starts. */
    ghost predicate AreTokens(tokens: seq<seq<byte>>, input: seq<byte>, from: nat, end: nat)
      decreases |tokens|
    {
      from <= end <= |input| &&
      if tokens == [] then from == end
      else
        var t := tokens[0];
        && 0 < |t| <= end - from && t == input[from..from + |t|] && IsLongest(input[from..], |t|)
        && AreTokens(tokens[1..], input, from + |t|, end)
    }

    lemma {:induction false} OneMoreToken(tokens: seq<seq<byte>>, input: seq<byte>, from: nat, end: nat, t: seq<byte>)
      requires AreTokens(tokens, input, from, end) && end + |t| <= |input|
      requires t != [] && t == input[end..end + |t|] && IsLongest(input[end..], |t|)
      ensures AreTokens(tokens + [t], input, from, end + |t|)
      decreases |tokens|
    {
      if tokens == [] {
        assert [t][1..] == [] && AreTokens([], input, end + |t|, end + |t|);
      } else {
        assert (tokens + [t])[1..] == tokens[1..] + [t];
        OneMoreToken(tokens[1..], input, from + |tokens[0]|, end, t);
      }
    }

    lemma NextIsToken(tokens: seq<seq<byte>>, before: seq<byte>, rest: seq<byte>, t: seq<byte>)
      requires AreTokens(tokens, before + rest, 0, |before|) && t <= rest && t != [] && IsLongest(rest, |t|)
      ensures AreTokens(tokens + [t], before + rest, 0, |before + t|)
    {
      var input := before + rest;
      assert input[|before|..] == rest;
      assert t == rest[..|t|] == input[|before|..|before| + |t|];
      OneMoreToken(tokens, input, 0, |before|, t);
    }

    /** Longest match leaves no choice. */
    lemma {:induction false} TokensUnique(us: seq<seq<byte>>, vs: seq<seq<byte>>, input: seq<byte>, from: nat, end: nat)
      requires AreTokens(us, input, from, end) && AreTokens(vs, input, from, end)
      ensures us == vs
      decreases |us|
    {
      if us != [] && vs != [] {
        assert |us[0]| <= |vs[0]| && |vs[0]| <= |us[0]|;
        TokensUnique(us[1..], vs[1..], input, from + |us[0]|, end);
        assert us == [us[0]] + us[1..] && vs == [vs[0]] + vs[1..];
      }
    }
  }

  class Buffer {
    const isOurBuffer: bool
    const isInteractive: bool
    const fillBuffer: bool
    var chBuf: array<byte>
    var bufSize: nat
    var nChars: nat
    var textPtr: nat
    var cBufP: nat
    /** The character that the zero byte behind the current token stands for. */
    var holdChar: byte
    var status: Status
    /** What the input still holds. */
    var unread: seq<byte>
    /** What the scanner has moved past. */
    ghost var consumed: seq<byte>

    constructor (size: nat, input: seq<byte>, isInteractive: bool)
      requires size > 0
      ensures Valid() && fresh(chBuf) && Whole() == input && consumed == [] && cBufP == 0 && fillBuffer && isOurBuffer
    {
      isOurBuffer, this.isInteractive, fillBuffer := true, isInteractive, true;
      bufSize, nChars, textPtr, cBufP, status := size, 0, 0, 0, YY_BUFFER_NEW;
      holdChar, unread, consumed := 0, input, [];
      chBuf := new byte[size + 2](_ => YY_END_OF_BUFFER_CHAR);
    }

    /** The text from the current token on is in the buffer, two end markers follow it, and input is
        pending only as long as no end of file was seen. */
    ghost predicate Valid()
      reads this, chBuf
    {
      && bufSize > 0 && chBuf.Length == bufSize + 2
      && textPtr <= nChars <= bufSize
      && chBuf[nChars] == YY_END_OF_BUFFER_CHAR && chBuf[nChars + 1] == YY_END_OF_BUFFER_CHAR
      && (status == YY_BUFFER_EOF_PENDING ==> unread == [])
      && (!fillBuffer ==> unread == [])
    }

    ghost function Pending(): seq<byte>
      reads this, chBuf
      requires Valid()
    {
      chBuf[textPtr..nChars]
    }

    /** What is still to be scanned. */
    ghost function Rest(): seq<byte>
      reads this, chBuf
      requires Valid()
    {
      Pending() + unread
    }

    /** The whole input: what is behind, in and before the buffer. */
    ghost function Whole(): seq<byte>
      reads this, chBuf
      requires Valid()
    {
      consumed + Rest()
    }

    /** The token is cut off by a zero byte for its action; the character there is held. */
    method DoBeforeAction(len: nat)
      requires Valid() && textPtr + len <= nChars
      modifies this`cBufP, this`holdChar, chBuf
      ensures cBufP == textPtr + len && holdChar == old(chBuf[textPtr + len])
      ensures chBuf[..] == old(chBuf[..])[cBufP := 0]
    {
      cBufP := textPtr + len;
      holdChar := chBuf[cBufP];
      chBuf[cBufP] := 0;
    }

    /** A token of some length has been matched: its action sees it, then the held character is put back
        and the next token starts behind it. */
    method Advance(len: nat) returns (token: seq<byte>)
      requires Valid() && textPtr + len <= nChars
      modifies this`textPtr, this`cBufP, this`holdChar, this`consumed, chBuf
      ensures Valid() && Whole() == old(Whole()) && token == old(Pending())[..len] && consumed == old(consumed) + token
      ensures Pending() == old(Pending())[len..] && cBufP == textPtr
    {
      ghost var pending, chars := Pending(), chBuf[..];
      Regrouped(consumed, pending[..len], pending[len..], unread);
      assert pending == pending[..len] + pending[len..];
      DoBeforeAction(len);
      token := chBuf[textPtr..cBufP];
      assert token == chars[textPtr..cBufP] == pending[..len];
      chBuf[cBufP] := holdChar;
      assert chBuf[..] == chars;
      consumed := consumed + pending[..len];
      textPtr := cBufP;
      assert Pending() == chars[textPtr..nChars] == pending[len..];
    }

    /** Reads at most `max` bytes of input to a place in the buffer: a line from an interactive source,
        a full block from any other; nothing only at the end of the input. */
    method Input(at: nat, max: nat) returns (n: nat)
      requires max > 0 && at + max <= chBuf.Length
      modifies this`unread, chBuf
      ensures n <= max && old(unread) == chBuf[at..at + n] + unread && (n == 0 <==> old(unread) == [])
      ensures chBuf[..at] == old(chBuf[..at])
    {
      if isInteractive {
        n := ReadLine(at, max);
      } else {
        n := ReadBlock(at, max);
      }
      assert unread == unread[..n] + unread[n..];
      unread := unread[n..];
    }

    method ReadLine(at: nat, max: nat) returns (n: nat)
      requires max > 0 && at + max <= chBuf.Length
      modifies chBuf
      ensures n <= max && n <= |unread| && chBuf[at..at + n] == unread[..n] && chBuf[..at] == old(chBuf[..at])
      ensures NEWLINE !in unread[..if n == 0 then 0 else n - 1]
      ensures n == max || n == |unread| || (n > 0 && unread[n - 1] == NEWLINE)
    {
      n := 0;
      while n < max && n < |unread| && (n == 0 || unread[n - 1] != NEWLINE)
        invariant n <= max && n <= |unread| && chBuf[at..at + n] == unread[..n] && chBuf[..at] == old(chBuf[..at])
        invariant NEWLINE !in unread[..if n == 0 then 0 else n - 1]
      {
        chBuf[at + n] := unread[n];
        n := n + 1;
      }
    }

    method ReadBlock(at: nat, max: nat) returns (n: nat)
      requires at + max <= chBuf.Length
      modifies chBuf
      ensures n == (if |unread| < max then |unread| else max)
      ensures chBuf[at..at + n] == unread[..n] && chBuf[..at] == old(chBuf[..at])
    {
      n := if |unread| < max then |unread| else max;
      forall i | 0 <= i < n {
        chBuf[at + i] := unread[i];
      }
    }

    /** Moves the unfinished token to the start of the buffer. */
    method MoveDown(number: nat)
      requires textPtr + number <= chBuf.Length
      modifies chBuf
      ensures chBuf[..number] == old(chBuf[textPtr..textPtr + number])
    {
      for i := 0 to number
        invariant forall k :: 0 <= k < i ==> chBuf[k] == old(chBuf[textPtr + k])
        invariant forall k :: i <= k < chBuf.Length ==> chBuf[k] == old(chBuf[k])
      {
        chBuf[i] := chBuf[textPtr + i];
      }
    }

    /** Doubles the buffer until there is room behind the moved text. */
    method Grow(number: nat) returns (ok: bool)
      requires bufSize > 0 && chBuf.Length == bufSize + 2 && number <= bufSize
      modifies this`chBuf, this`bufSize
      ensures !ok ==> !isOurBuffer
      ensures chBuf == old(chBuf) || fresh(chBuf)
      ensures ok ==>
        && bufSize >= old(bufSize) && bufSize - number - 1 > 0
        && chBuf.Length == bufSize + 2 && chBuf[..number] == old(chBuf[..number])
    {
      while bufSize as int - number - 1 <= 0
        invariant bufSize >= old(bufSize) && chBuf.Length == bufSize + 2 && chBuf[..number] == old(chBuf[..number])
        invariant chBuf == old(chBuf) || fresh(chBuf)
        decreases number + 2 - bufSize
      {
        if !isOurBuffer {
          return false;
        }
        bufSize := bufSize * 2;
        var bigger := new byte[bufSize + 2];
        forall i | 0 <= i < chBuf.Length {
          bigger[i] := chBuf[i];
        }
        chBuf := bigger;
      }
      return true;
    }

    /** yyrestart: an empty buffer that starts anew. */
    method Restart()
      requires chBuf.Length == bufSize + 2
      modifies this`nChars, this`textPtr, this`cBufP, this`status, chBuf
      ensures nChars == textPtr == cBufP == 0 && status == YY_BUFFER_NEW && chBuf[0] == chBuf[1] == YY_END_OF_BUFFER_CHAR
    {
      nChars := 0;
      chBuf[0] := YY_END_OF_BUFFER_CHAR;
      chBuf[1] := YY_END_OF_BUFFER_CHAR;
      textPtr, cBufP, status := 0, 0, YY_BUFFER_NEW;
    }

    /** Reads behind the moved text, after making room; at a pending end of file nothing is read. */
    method ReadMore(number: nat) returns (ok: bool)
      requires bufSize > 0 && chBuf.Length == bufSize + 2 && number <= bufSize
      requires status == YY_BUFFER_EOF_PENDING ==> unread == []
      modifies this`chBuf, this`bufSize, this`nChars, this`unread, chBuf
      ensures !ok ==> !isOurBuffer
      ensures ok ==>
        && bufSize > 0 && chBuf.Length == bufSize + 2 && number + nChars <= bufSize
        && (chBuf == old(chBuf) || fresh(chBuf)) && chBuf[..number] == old(chBuf[..number])
        && old(unread) == chBuf[number..number + nChars] + unread && (nChars == 0 <==> old(unread) == [])
    {
      if status == YY_BUFFER_EOF_PENDING {
        nChars := 0;
        return true;
      }
      ok := Grow(number);
      if !ok {
        return;
      }
      var numToRead := bufSize - number - 1;
      if numToRead > YY_READ_BUF_SIZE {
        numToRead := YY_READ_BUF_SIZE;
      }
      nChars := Input(number, numToRead);
    }

    /** Counts the moved text in, and sets the two end markers and the start of the token. */
    method Seal(number: nat)
      requires chBuf.Length == bufSize + 2 && nChars + number <= bufSize
      modifies this`nChars, this`textPtr, chBuf
      ensures nChars == old(nChars) + number && textPtr == 0 && chBuf[..nChars] == old(chBuf[..nChars + number])
      ensures chBuf[nChars] == YY_END_OF_BUFFER_CHAR && chBuf[nChars + 1] == YY_END_OF_BUFFER_CHAR
    {
      if nChars + number > bufSize {
        assert false;  // the buffer never has to be extended here
      }
      nChars := nChars + number;
      chBuf[nChars] := YY_END_OF_BUFFER_CHAR;
      chBuf[nChars + 1] := YY_END_OF_BUFFER_CHAR;
      textPtr := 0;
    }

    /** Tells how the input goes on, once something or nothing was read behind the moved text. */
    method Conclude(number: nat) returns (act: Action)
      requires chBuf.Length == bufSize + 2 && nChars + number <= bufSize
      modifies this`nChars, this`textPtr, this`cBufP, this`status, chBuf
      ensures nChars == old(nChars) + number && textPtr == 0 && chBuf[..nChars] == old(chBuf[..nChars + number])
      ensures chBuf[nChars] == YY_END_OF_BUFFER_CHAR && chBuf[nChars + 1] == YY_END_OF_BUFFER_CHAR
      ensures act == if old(nChars) > 0 then EOB_ACT_CONTINUE_SCAN
                     else if number == 0 then EOB_ACT_END_OF_FILE
                     else EOB_ACT_LAST_MATCH
      ensures status == YY_BUFFER_EOF_PENDING ==> old(status) == YY_BUFFER_EOF_PENDING || old(nChars) == 0
    {
      if nChars == 0 {
        if number == 0 {
          act := EOB_ACT_END_OF_FILE;
          Restart();
        } else {
          act := EOB_ACT_LAST_MATCH;
          status := YY_BUFFER_EOF_PENDING;
        }
      } else {
        act := EOB_ACT_CONTINUE_SCAN;
      }
      Seal(number);
    }

    /** Called when the scan has run over the first end marker: makes more input available behind the
        unfinished token, or reports how the input ended. */
    method GetNextBuffer() returns (act: Action)
      requires Valid() && cBufP > nChars
      modifies this, chBuf
      ensures act.FatalMissed? <==> old(cBufP > nChars + 1)
      ensures act.FatalOverflow? ==> !isOurBuffer
      ensures !IsFatal(act) ==>
        && Valid() && Whole() == old(Whole()) && consumed == old(consumed) && (chBuf == old(chBuf) || fresh(chBuf))
        && old(Pending()) <= Pending()
        && (act.EOB_ACT_CONTINUE_SCAN? <==> Pending() != old(Pending()))
        && (act.EOB_ACT_END_OF_FILE? <==> old(Pending()) == [] && Pending() == [])
        && (!act.EOB_ACT_CONTINUE_SCAN? ==> unread == [])
    {
      if cBufP > nChars + 1 {
        return FatalMissed;
      }
      if !fillBuffer {
        return if cBufP - textPtr == 1 then EOB_ACT_END_OF_FILE else EOB_ACT_LAST_MATCH;
      }
      act := Refill();
    }

    /** Makes the pending text the front of the buffer and reads behind it. */
    method MoveAndRead(number: nat) returns (ok: bool)
      requires Valid() && cBufP == nChars + 1 && number == |Pending()|
      modifies this`chBuf, this`bufSize, this`nChars, this`unread, chBuf
      ensures !ok ==> !isOurBuffer
      ensures ok ==>
        && bufSize > 0 && chBuf.Length == bufSize + 2 && number + nChars <= bufSize
        && (chBuf == old(chBuf) || fresh(chBuf)) && chBuf[..number] == old(Pending())
        && old(unread) == chBuf[number..number + nChars] + unread && (nChars == 0 <==> old(unread) == [])
    {
      MoveDown(number);
      ok := ReadMore(number);
    }

    method Refill() returns (act: Action)
      requires Valid() && cBufP == nChars + 1
      modifies this, chBuf
      ensures !act.FatalMissed? && (act.FatalOverflow? ==> !isOurBuffer)
      ensures !IsFatal(act) ==>
        && Valid() && Whole() == old(Whole()) && consumed == old(consumed) && (chBuf == old(chBuf) || fresh(chBuf))
        && old(Pending()) <= Pending()
        && (act.EOB_ACT_CONTINUE_SCAN? <==> Pending() != old(Pending()))
        && (act.EOB_ACT_END_OF_FILE? <==> old(Pending()) == [] && Pending() == [])
        && (!act.EOB_ACT_CONTINUE_SCAN? ==> unread == [])
    {
      ghost var pending, input := Pending(), unread;
      var numberToMove := cBufP - textPtr - 1;
      var ok := MoveAndRead(numberToMove);
      if !ok {
        return FatalOverflow;
      }
      ghost var read := chBuf[numberToMove..numberToMove + nChars];
      assert chBuf[..numberToMove + nChars] == chBuf[..numberToMove] + read == pending + read;
      act := Conclude(numberToMove);
      assert Pending() == pending + read;
      Regrouped(consumed, pending, read, unread);
    }

    /** The scanner's reaction: it goes on behind the text it had matched, takes that text as the last
        match, or stops. At the end of the input everything has been consumed, in order. */
    method EndOfBuffer() returns (act: Action)
      requires Valid() && cBufP == nChars + 1
      modifies this, chBuf
      ensures !act.FatalMissed? && (act.FatalOverflow? ==> !isOurBuffer)
      ensures !IsFatal(act) ==>
        && Valid() && Whole() == old(Whole()) && consumed == old(consumed) && (chBuf == old(chBuf) || fresh(chBuf))
        && textPtr <= cBufP <= nChars && chBuf[textPtr..cBufP] == old(Pending()) && old(Pending()) <= Pending()
        && (act.EOB_ACT_CONTINUE_SCAN? <==> cBufP < nChars)
        && (act.EOB_ACT_END_OF_FILE? <==> Pending() == [])
        && (!act.EOB_ACT_CONTINUE_SCAN? ==> unread == [] && Pending() == old(Pending()))
    {
      var amountOfMatchedText := cBufP - textPtr - 1;
      ghost var pending := Pending();
      act := GetNextBuffer();
      if IsFatal(act) {
        return;
      }
      SliceStart(chBuf[..], textPtr, nChars, amountOfMatchedText);
      assert Pending()[..|pending|] == pending;
      if act == EOB_ACT_END_OF_FILE {
        cBufP := textPtr;
      } else if act == EOB_ACT_CONTINUE_SCAN {
        cBufP := textPtr + amountOfMatchedText;
      } else {
        cBufP := nChars;
      }
      assert cBufP == textPtr + amountOfMatchedText;
    }

    /** The action on a zero byte behind some matched text: in the input it is a character like any other;
        as the first end marker it ends the buffer. */
    method OnZeroByte(matched: nat) returns (isNul: bool, act: Action)
      requires Valid() && textPtr + matched <= nChars && chBuf[textPtr + matched] == YY_END_OF_BUFFER_CHAR
      modifies this, chBuf
      ensures isNul <==> old(textPtr + matched < nChars)
      ensures isNul ==> act.EOB_ACT_CONTINUE_SCAN? && unread == old(unread)
      ensures !act.FatalMissed? && (act.FatalOverflow? ==> !isOurBuffer)
      ensures !IsFatal(act) ==>
        && Valid() && Rest() == old(Rest()) && consumed == old(consumed) && (chBuf == old(chBuf) || fresh(chBuf))
        && |old(Pending())| <= |Pending()|
        && (!isNul && act.EOB_ACT_CONTINUE_SCAN? ==> |unread| < |old(unread)|)
        && (act.EOB_ACT_END_OF_FILE? ==> Rest() == [])
        && (act.EOB_ACT_LAST_MATCH? ==> Rest() != [] && matched == |Rest()|)
    {
      cBufP := textPtr + matched + 1;
      if status == YY_BUFFER_NEW {
        status := YY_BUFFER_NORMAL;
      }
      if cBufP <= nChars {
        cBufP := textPtr + matched;
        return true, EOB_ACT_CONTINUE_SCAN;
      }
      ghost var before, rest := consumed, Rest();
      isNul := false;
      act := EndOfBuffer();
      if !IsFatal(act) {
        SameRest(before, rest, Rest());
      }
    }

    /** Finds the length of the longest match, reading as much input as it takes to tell. */
    method MatchLength(a: Automaton) returns (len: nat, act: Action)
      requires Valid() && a.Valid()
      modifies this, chBuf
      ensures !act.FatalMissed? && (act.FatalOverflow? ==> !isOurBuffer)
      ensures !IsFatal(act) ==>
        && Valid() && Rest() == old(Rest()) && consumed == old(consumed) && (chBuf == old(chBuf) || fresh(chBuf))
        && (act.EOB_ACT_END_OF_FILE? <==> Rest() == [])
        && (Rest() != [] ==> 0 < len <= |Pending()| && a.IsLongest(Rest(), len))
    {
      ghost var rest := Rest();
      var q, i: nat := a.start, 0;
      len, act := 0, EOB_ACT_CONTINUE_SCAN;
      while true
        invariant Valid() && Rest() == rest && consumed == old(consumed) && (chBuf == old(chBuf) || fresh(chBuf))
        invariant i <= |Pending()| && a.Reading(rest, q, i, len) && act == EOB_ACT_CONTINUE_SCAN
        invariant i > 0 ==> rest != []
        decreases |unread|, |rest| - i
      {
        var c := chBuf[textPtr + i];
        if c == YY_END_OF_BUFFER_CHAR {
          var isNul;
          isNul, act := OnZeroByte(i);
          if IsFatal(act) || act == EOB_ACT_END_OF_FILE {
            return;
          }
          if act == EOB_ACT_LAST_MATCH {
            act := EOB_ACT_CONTINUE_SCAN;
            break;
          }
          if !isNul {
            continue;
          }
        }
        assert c == rest[i];
        a.ReadOne(rest, q, i, len);
        var next := a.step(q, c);
        if next == None {
          break;
        }
        len := a.Best(q, i, len);
        q, i := next.value, i + 1;
      }
      a.ReadOne(rest, q, i, len);
      len := a.Best(q, i, len);
    }

    /** The next token, or the end of the input. */
    method NextToken(a: Automaton) returns (token: seq<byte>, act: Action)
      requires Valid() && a.Valid()
      modifies this, chBuf
      ensures !act.FatalMissed? && (act.FatalOverflow? ==> !isOurBuffer)
      ensures !IsFatal(act) ==>
        && Valid() && Whole() == old(Whole()) && consumed == old(consumed) + token && (chBuf == old(chBuf) || fresh(chBuf))
        && token <= old(Rest())
        && if old(Rest()) == [] then act.EOB_ACT_END_OF_FILE? && token == []
           else !act.EOB_ACT_END_OF_FILE? && token != [] && a.IsLongest(old(Rest()), |token|)
    {
      token := [];
      var len;
      len, act := MatchLength(a);
      if IsFatal(act) || act == EOB_ACT_END_OF_FILE {
        return;
      }
      ghost var pending := Pending();
      token := Advance(len);
      assert token == pending[..len] == old(Rest())[..len];
    }

    /** Scans the whole input: its tokens by longest match, whatever the size of the buffer and however the
        input arrives. */
    method ScanAll(a: Automaton) returns (tokens: seq<seq<byte>>)
      requires Valid() && a.Valid() && isOurBuffer && consumed == []
      modifies this, chBuf
      ensures Valid() && consumed == Whole() == old(Whole())
      ensures a.AreTokens(tokens, Whole(), 0, |Whole()|)
    {
      tokens := [];
      ghost var input := Whole();
      while true
        invariant Valid() && Whole() == input && (chBuf == old(chBuf) || fresh(chBuf))
        invariant a.AreTokens(tokens, input, 0, |consumed|)
        decreases |input| - |consumed|
      {
        ghost var before, rest := consumed, Rest();
        var token, act := NextToken(a);
        if act == EOB_ACT_END_OF_FILE {
          break;
        }
        a.NextIsToken(tokens, before, rest, token);
        tokens := tokens + [token];
      }
    }
  }
}
