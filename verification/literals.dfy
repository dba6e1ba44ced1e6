/** The scanner's literal buffer and the un-escaping of U& literals into a buffer of the same size. */
module Literals {
  import opened Utf8
  import opened Unescape

  /** A C string's characters: everything before the first zero byte. */
  function UpToNul(s: seq<byte>): (r: seq<byte>)
    ensures r <= s && 0 !in r && (|r| < |s| ==> s[|r|] == 0)
  {
    if s == [] || s[0] == 0 then [] else [s[0]] + UpToNul(s[1..])
  }

  lemma HexValueOf4(a: byte, b: byte, c: byte, d: byte)
    requires IsHexDigit(a) && IsHexDigit(b) && IsHexDigit(c) && IsHexDigit(d)
    ensures HexValue([a, b, c, d]) == HexVal(a) * 0x1000 + HexVal(b) * 0x100 + HexVal(c) * 0x10 + HexVal(d)
  {
    assert [a, b, c, d][..3] == [a, b, c];
    assert [a, b, c][..2] == [a, b];
    assert [a, b][..1] == [a];
    assert [a][..0] == [];
    assert HexValue([a]) == HexVal(a);
    assert HexValue([a, b]) == 16 * HexVal(a) + HexVal(b);
    assert HexValue([a, b, c]) == 16 * HexValue([a, b]) + HexVal(c);
  }

  lemma HexValueOf6(a: byte, b: byte, c: byte, d: byte, e: byte, f: byte)
    requires IsHexDigit(a) && IsHexDigit(b) && IsHexDigit(c) && IsHexDigit(d) && IsHexDigit(e) && IsHexDigit(f)
    ensures HexValue([a, b, c, d, e, f]) ==
      HexVal(a) * 0x100000 + HexVal(b) * 0x10000 + HexVal(c) * 0x1000 + HexVal(d) * 0x100 + HexVal(e) * 0x10 + HexVal(f)
  {
    assert [a, b, c, d, e, f][..5] == [a, b, c, d, e];
    assert [a, b, c, d, e][..4] == [a, b, c, d];
    HexValueOf4(a, b, c, d);
    assert HexValue([a, b, c, d, e]) == 16 * HexValue([a, b, c, d]) + HexVal(e);
  }

  class LiteralBuffer {
    var literalbuf: array<byte>
    var literallen: nat
    var literalalloc: nat

    constructor ()
      ensures Valid() && Contents() == [] && fresh(literalbuf)
    {
      literalalloc := 1024;
      literalbuf := new byte[1024];
      literallen := 0;
    }

    ghost predicate Valid()
      reads this
    {
      literalbuf.Length == literalalloc && literallen < literalalloc
    }

    ghost function Contents(): seq<byte>
      reads this, literalbuf
      requires Valid()
    {
      literalbuf[..literallen]
    }

    /** A buffer of the new size with the old contents. */
    method Repalloc()
      requires literallen <= literalbuf.Length <= literalalloc
      modifies this`literalbuf
      ensures fresh(literalbuf) && literalbuf.Length == literalalloc
      ensures literalbuf[..literallen] == old(literalbuf[..literallen])
    {
      var bigger := new byte[literalalloc];
      forall i | 0 <= i < literalbuf.Length {
        bigger[i] := literalbuf[i];
      }
      literalbuf := bigger;
    }

    method AddLit(ytext: seq<byte>)
      requires Valid()
      modifies this, literalbuf
      ensures Valid() && Contents() == old(Contents()) + ytext && (literalbuf == old(literalbuf) || fresh(literalbuf))
    {
      if literallen + |ytext| >= literalalloc {
        literalalloc := literalalloc * 2;
        while literallen + |ytext| >= literalalloc
          modifies this`literalalloc
          invariant literalbuf.Length <= literalalloc && literalalloc > 0
          decreases literallen + |ytext| - literalalloc
        {
          literalalloc := literalalloc * 2;
        }
        Repalloc();
      }
      assert literalbuf[..literallen] == old(Contents());
      Write(literalbuf, literallen, ytext);
      literallen := literallen + |ytext|;
      assert Contents() == old(Contents()) + ytext;
    }

    method AddLitChar(ychar: byte)
      requires Valid()
      modifies this, literalbuf
      ensures Valid() && Contents() == old(Contents()) + [ychar] && (literalbuf == old(literalbuf) || fresh(literalbuf))
    {
      if literallen + 1 >= literalalloc {
        literalalloc := literalalloc * 2;
        Repalloc();
      }
      literalbuf[literallen] := ychar;
      literallen := literallen + 1;
      assert Contents() == old(Contents()) + [ychar];
    }
  }

  /** A zero-terminated buffer with exactly this text. */
  ghost predicate Holds(litbuf: array<byte>, text: seq<byte>)
    reads litbuf
  {
    |text| < litbuf.Length && litbuf[..|text|] == text && 0 !in text && litbuf[|text|] == 0
  }

  lemma Slice4(s: seq<byte>)
    requires |s| >= 5
    ensures s[1..5] == [s[1], s[2], s[3], s[4]]
    ensures AllHex(s[1..5]) <==> IsHexDigit(s[1]) && IsHexDigit(s[2]) && IsHexDigit(s[3]) && IsHexDigit(s[4])
  {
    var d := s[1..5];
    assert d[0] == s[1] && d[1] == s[2] && d[2] == s[3] && d[3] == s[4];
  }

  lemma Slice6(s: seq<byte>)
    requires |s| >= 8
    ensures s[2..8] == [s[2], s[3], s[4], s[5], s[6], s[7]]
    ensures AllHex(s[2..8]) <==> forall i :: 2 <= i < 8 ==> IsHexDigit(s[i])
  {
    var d := s[2..8];
    assert d[0] == s[2] && d[1] == s[3] && d[2] == s[4] && d[3] == s[5] && d[4] == s[6] && d[5] == s[7];
  }

  /** The four digits at a position, if they are there; never looks past the terminating zero byte. */
  method ReadFour(litbuf: array<byte>, at: nat, ghost text: seq<byte>) returns (found: bool, value: nat)
    requires Holds(litbuf, text) && at < |text|
    ensures var s := text[at..]; found <==> |s| >= 5 && AllHex(s[1..5])
    ensures found ==> value == HexValue(text[at..][1..5])
  {
    ghost var s := text[at..];
    assert forall i :: 0 <= i < |s| ==> litbuf[at + i] == s[i] && s[i] != 0;
    assert litbuf[at + |s|] == 0;
    if |s| >= 5 { Slice4(s); }
    if IsHexDigit(litbuf[at + 1]) && IsHexDigit(litbuf[at + 2]) && IsHexDigit(litbuf[at + 3]) && IsHexDigit(litbuf[at + 4]) {
      var (a, b, c, d) := (litbuf[at + 1], litbuf[at + 2], litbuf[at + 3], litbuf[at + 4]);
      HexValueOf4(a, b, c, d);
      return true, HexVal(a) * 0x1000 + HexVal(b) * 0x100 + HexVal(c) * 0x10 + HexVal(d);
    }
    return false, 0;
  }

  method ReadSix(litbuf: array<byte>, at: nat, ghost text: seq<byte>) returns (found: bool, value: nat)
    requires Holds(litbuf, text) && at < |text|
    ensures var s := text[at..]; found <==> At(s, 1) == PLUS && |s| >= 8 && AllHex(s[2..8])
    ensures found ==> value == HexValue(text[at..][2..8])
  {
    ghost var s := text[at..];
    assert forall i :: 0 <= i < |s| ==> litbuf[at + i] == s[i] && s[i] != 0;
    assert litbuf[at + |s|] == 0;
    if |s| >= 8 { Slice6(s); }
    if litbuf[at + 1] == PLUS && IsHexDigit(litbuf[at + 2]) && IsHexDigit(litbuf[at + 3]) && IsHexDigit(litbuf[at + 4])
       && IsHexDigit(litbuf[at + 5]) && IsHexDigit(litbuf[at + 6]) && IsHexDigit(litbuf[at + 7])
    {
      var (a, b, c) := (litbuf[at + 2], litbuf[at + 3], litbuf[at + 4]);
      var (d, e, f) := (litbuf[at + 5], litbuf[at + 6], litbuf[at + 7]);
      HexValueOf6(a, b, c, d, e, f);
      return true, HexVal(a) * 0x100000 + HexVal(b) * 0x10000 + HexVal(c) * 0x1000 + HexVal(d) * 0x100
        + HexVal(e) * 0x10 + HexVal(f);
    }
    return false, 0;
  }

  /** Reads what follows an escape character. */
  method ReadEscape(litbuf: array<byte>, at: nat, t: Setting, ghost text: seq<byte>) returns (e: Escape)
    requires Holds(litbuf, text) && at < |text| && t.escape != 0
    ensures e == EscapeAt(text[at..], t)
  {
    assert litbuf[at + 1] == At(text[at..], 1);
    if t.IsEscape(litbuf[at + 1]) {
      return DoubledEscape;
    }
    var found, value := ReadFour(litbuf, at, text);
    if found {
      return FourDigits(value);
    }
    found, value := ReadSix(litbuf, at, text);
    return if found then SixDigits(value) else NoEscape;
  }

  /** Writes bytes into the output buffer. */
  method Write(buffer: array<byte>, at: nat, bytes: seq<byte>)
    requires at + |bytes| <= buffer.Length
    modifies buffer
    ensures buffer[..at + |bytes|] == old(buffer[..at]) + bytes
  {
    forall i | 0 <= i < |bytes| {
      buffer[at + i] := bytes[i];
    }
  }

  /** Where the loop stands: what was written and what is still to be read make up the meaning, and the
      output is never ahead of the input; behind a pending surrogate it is five bytes behind. */
  ghost predicate Progress(text: seq<byte>, t: Setting, at: nat, written: seq<byte>, first: nat)
    requires t.escape != 0
  {
    && at <= |text|
    && (first != 0 ==> IsFirstSurrogate(first) && t.utf8)
    && |written| + (if first != 0 then 5 else 0) <= at
    && Decoded(text, t, 0) == Decoded(text[at..], t, first).After(written)
  }

  /** One numeric escape of the loop. */
  lemma CodeProgress(text: seq<byte>, t: Setting, at: nat, written: seq<byte>, first: nat, v: nat, len: nat)
    requires t.escape != 0 && Progress(text, t, at, written, first) && at < |text| && t.IsEscape(text[at])
    requires EscapeAt(text[at..], t) == if len == 5 then FourDigits(v) else SixDigits(v)
    requires len == 5 || len == 8
    ensures at + len <= |text| && text[at..][len..] == text[at + len..]
    ensures Decoded(text, t, 0) == DecodedCode(text[at..], t, first, v, len).After(written)
    ensures v <= if len == 5 then 0xFFFF else 0xFFFFFF
  {
    assert text[at..][0] == text[at];
  }

  /** When a code is rejected, so is the text. */
  lemma CodeRejected(text: seq<byte>, t: Setting, at: nat, written: seq<byte>, first: nat, v: nat, len: nat)
    requires t.escape != 0 && Progress(text, t, at, written, first) && at < |text| && t.IsEscape(text[at])
    requires (len == 5 || len == 8) && EscapeAt(text[at..], t) == if len == 5 then FourDigits(v) else SixDigits(v)
    ensures !t.utf8 && v > 0x7F ==> Decoded(text, t, 0) == Rejected(NotUtf8)
    ensures (t.utf8 || v <= 0x7F) && IsSecondSurrogate(v) != (first != 0) ==> Decoded(text, t, 0) == Rejected(InvalidSurrogatePair)
  {
    CodeProgress(text, t, at, written, first, v, len);
  }

  /** After a code that completes a code point. */
  lemma CodeWritten(text: seq<byte>, t: Setting, at: nat, written: seq<byte>, first: nat, v: nat, len: nat,
                    unicode: nat)
    requires t.escape != 0 && Progress(text, t, at, written, first) && at < |text| && t.IsEscape(text[at])
    requires (len == 5 || len == 8) && EscapeAt(text[at..], t) == if len == 5 then FourDigits(v) else SixDigits(v)
    requires t.utf8 || v <= 0x7F
    requires if first != 0 then IsSecondSurrogate(v) && unicode == SurrogatePairToCodepoint(first, v)
             else !IsSurrogate(v) && unicode == v
    ensures at + len <= |text| && Progress(text, t, at + len, written + Encode(unicode), 0)
  {
    CodeProgress(text, t, at, written, first, v, len);
    AfterAfter(Decoded(text[at + len..], t, 0), written, Encode(unicode));
  }

  /** After a code that is the first half of a pair. */
  lemma CodePending(text: seq<byte>, t: Setting, at: nat, written: seq<byte>, v: nat, len: nat)
    requires t.escape != 0 && Progress(text, t, at, written, 0) && at < |text| && t.IsEscape(text[at])
    requires (len == 5 || len == 8) && EscapeAt(text[at..], t) == if len == 5 then FourDigits(v) else SixDigits(v)
    requires t.utf8 && IsFirstSurrogate(v)
    ensures at + len <= |text| && Progress(text, t, at + len, written, v)
  {
    CodeProgress(text, t, at, written, 0, v, len);
  }

  lemma AllRead(text: seq<byte>, t: Setting, at: nat, written: seq<byte>)
    requires t.escape != 0 && at == |text| && Progress(text, t, at, written, 0)
    ensures Decoded(text, t, 0) == Accepted(written)
  {
    assert text[at..] == [] && written + [] == written;
  }

  /** Un-escapes a zero-terminated literal into a new buffer of its size plus one, and has the result
      verified. */
  method LitbufUdeescape(lit: LiteralBuffer, t: Setting, verify: seq<byte> -> bool) returns (res: Outcome)
    requires lit.Valid() && t.escape != 0
    modifies lit.literalbuf
    ensures lit.Valid() && lit.Contents() == old(lit.Contents())
    ensures var meaning := Decoded(UpToNul(old(lit.Contents())), t, 0);
            if meaning.Accepted? && !verify(meaning.out) then res == Rejected(InvalidByteSequence) else res == meaning
  {
    var litbuf := lit.literalbuf;
    litbuf[lit.literallen] := 0;
    ghost var text := UpToNul(lit.Contents());
    assert Holds(litbuf, text);
    var buffer := new byte[lit.literallen + 1];
    var at: nat, out: nat, first: nat := 0, 0, 0;
    while litbuf[at] != 0
      invariant Holds(litbuf, text) && out < buffer.Length && Progress(text, t, at, buffer[..out], first)
      invariant lit.Valid() && lit.Contents() == old(lit.Contents())
      decreases |text| - at
    {
      res, at, out, first := UnescapeOne(litbuf, buffer, at, out, first, t, text);
      if res.Rejected? {
        return;
      }
    }
    if first != 0 {
      return Rejected(InvalidSurrogatePair);
    }
    ghost var written := buffer[..out];
    AllRead(text, t, at, written);
    buffer[out] := 0;
    assert buffer[..out] == written;
    res := if verify(buffer[..out]) then Accepted(buffer[..out]) else Rejected(InvalidByteSequence);
  }

  /** One round of the loop. A rejection ends the scan. */
  method UnescapeOne(litbuf: array<byte>, buffer: array<byte>, at0: nat, out0: nat, first0: nat, t: Setting,
                     ghost text: seq<byte>)
    returns (res: Outcome, at: nat, out: nat, first: nat)
    requires litbuf != buffer && Holds(litbuf, text) && t.escape != 0 && |text| < buffer.Length
    requires out0 < buffer.Length && at0 < |text| && Progress(text, t, at0, buffer[..out0], first0)
    modifies buffer
    ensures res.Rejected? ==> res == Decoded(text, t, 0)
    ensures !res.Rejected? ==> at0 < at && out < buffer.Length && Progress(text, t, at, buffer[..out], first)
  {
    res, at, out, first := Accepted([]), at0, out0, first0;
    ghost var written := buffer[..out0];
    assert text[at..][0] == litbuf[at];
    if !t.IsEscape(litbuf[at]) {
      if first != 0 {
        return Rejected(InvalidSurrogatePair), at, out, first;
      }
      assert text[at..][1..] == text[at + 1..];
      AfterAfter(Decoded(text[at + 1..], t, 0), written, [litbuf[at]]);
      Write(buffer, out, [litbuf[at]]);
      at, out := at + 1, out + 1;
      return;
    }
    var e := ReadEscape(litbuf, at, t, text);
    match e
    case NoEscape =>
      res := Rejected(InvalidEscapeValue);
    case DoubledEscape =>
      if first != 0 {
        return Rejected(InvalidSurrogatePair), at, out, first;
      }
      assert text[at..][2..] == text[at + 2..];
      AfterAfter(Decoded(text[at + 2..], t, 0), written, [t.escape]);
      Write(buffer, out, [t.escape]);
      at, out := at + 2, out + 1;
    case FourDigits(v) =>
      res, at, out, first := WriteCode(buffer, at, out, first, t, v, 5, text);
    case SixDigits(v) =>
      res, at, out, first := WriteCode(buffer, at, out, first, t, v, 8, text);
  }

  /** The common part of both numeric escapes, which take five and eight characters. */
  method WriteCode(buffer: array<byte>, at0: nat, out0: nat, first0: nat, t: Setting, v: nat, len: nat,
                   ghost text: seq<byte>)
    returns (res: Outcome, at: nat, out: nat, first: nat)
    requires t.escape != 0 && |text| < buffer.Length && out0 < buffer.Length
    requires at0 < |text| && t.IsEscape(text[at0]) && Progress(text, t, at0, buffer[..out0], first0)
    requires (len == 5 || len == 8) && EscapeAt(text[at0..], t) == if len == 5 then FourDigits(v) else SixDigits(v)
    modifies buffer
    ensures res.Rejected? ==> res == Decoded(text, t, 0)
    ensures !res.Rejected? ==> at0 < at && out < buffer.Length && Progress(text, t, at, buffer[..out], first)
  {
    res, at, out, first := Accepted([]), at0, out0, first0;
    ghost var written := buffer[..out0];
    CodeRejected(text, t, at, written, first, v, len);
    if !t.utf8 && v > 0x7F {
      return Rejected(NotUtf8), at, out, first;
    }
    var unicode := v;
    if first != 0 {
      if IsSecondSurrogate(unicode) {
        PairIsSupplementary(first, unicode);
        unicode := SurrogatePairToCodepoint(first, unicode);
        first := 0;
      } else {
        return Rejected(InvalidSurrogatePair), at, out, first;
      }
    } else if IsSecondSurrogate(unicode) {
      return Rejected(InvalidSurrogatePair), at, out, first;
    }
    if IsFirstSurrogate(unicode) {
      CodePending(text, t, at, written, v, len);
      return Accepted([]), at + len, out, unicode;
    }
    CodeWritten(text, t, at, written, first0, v, len, unicode);
    var code := Encode(unicode);
    Write(buffer, out, code);
    at, out, first := at + len, out + |code|, 0;
    assert buffer[..out] == written + code;
  }
}
