/** Unicode escapes in U& literals: what a literal means, and what the scanner makes of it. */
module Unescape {
  import opened Utf8

  predicate IsHexDigit(b: byte) {
    '0' as int <= b <= '9' as int || 'a' as int <= b <= 'f' as int || 'A' as int <= b <= 'F' as int
  }

  function HexVal(b: byte): (v: nat)
    requires IsHexDigit(b)
    ensures v < 16
  {
    if b <= '9' as int then b - '0' as int else if b <= 'F' as int then b - 'A' as int + 10 else b - 'a' as int + 10
  }

  const LOWER_DIGITS := "0123456789abcdef"
  const UPPER_DIGITS := "0123456789ABCDEF"

  /** The value of a digit of either case is its place among the sixteen. */
  lemma HexDigitValues(k: nat)
    requires k < 16
    ensures var (lower, upper) := (LOWER_DIGITS[k] as int, UPPER_DIGITS[k] as int);
            && lower < 256 && upper < 256 && IsHexDigit(lower) && IsHexDigit(upper)
            && HexVal(lower) == k && HexVal(upper) == k
  {
  }

  /** And there are no other digits. */
  lemma HexDigitIff(b: byte)
    ensures IsHexDigit(b) <==> exists k :: 0 <= k < 16 && (LOWER_DIGITS[k] as int == b || UPPER_DIGITS[k] as int == b)
  {
    if IsHexDigit(b) {
      var k := HexVal(b);
      assert LOWER_DIGITS[k] as int == b || UPPER_DIGITS[k] as int == b;
    }
  }

  predicate AllHex(d: seq<byte>) {
    forall i :: 0 <= i < |d| ==> IsHexDigit(d[i])
  }

  function HexValue(d: seq<byte>): nat
    requires AllHex(d)
  {
    if d == [] then 0 else 16 * HexValue(d[..|d| - 1]) + HexVal(d[|d| - 1])
  }

  predicate IsSpace(b: byte) {
    b == 0x20 || b == 0x09 || b == 0x0A || b == 0x0D || b == 0x0C
  }

  const PLUS: byte := '+' as int

  /** Whether UESCAPE accepts a character. */
  predicate CheckUescapechar(escape: byte) {
    !IsHexDigit(escape) && escape != PLUS && escape != '\'' as int && escape != '"' as int && !IsSpace(escape)
  }

  const NO_UESCAPE := "0123456789abcdefABCDEF+'\" \t\n\r\U{C}"

  /** It accepts every character but these. */
  lemma UescapecharIff(b: byte)
    ensures CheckUescapechar(b) <==> forall k :: 0 <= k < |NO_UESCAPE| ==> NO_UESCAPE[k] as int != b
  {
    if !CheckUescapechar(b) {
      var k := if b == PLUS then 22 else if b == '\'' as int then 23 else if b == '"' as int then 24
               else if b == 0x20 then 25 else if b == 0x09 then 26 else if b == 0x0A then 27
               else if b == 0x0D then 28 else if b == 0x0C then 29
               else if b < 'A' as int then b - '0' as int
               else if b < 'a' as int then b - 'A' as int + 16 else b - 'a' as int + 10;
      assert NO_UESCAPE[k] as int == b;
    }
  }

  function SurrogatePairToCodepoint(first: nat, second: nat): nat {
    first % 0x400 * 0x400 + 0x10000 + second % 0x400
  }

  /** The escape character, whether the database encoding is UTF-8, and whether the platform's plain
      `char` is signed: then a byte above 127 never equals the (unsigned) escape character. */
  datatype Setting = Setting(escape: byte, utf8: bool, signedChar: bool) {
    predicate IsEscape(b: byte) {
      b == escape && !(signedChar && b >= 128)
    }
  }

  datatype Error = InvalidSurrogatePair | InvalidEscapeValue | NotUtf8 | InvalidByteSequence

  datatype Outcome = Accepted(out: seq<byte>) | Rejected(error: Error) {
    /** The outcome after some bytes already written. */
    function After(bytes: seq<byte>): Outcome {
      match this
      case Accepted(out) => Accepted(bytes + out)
      case Rejected(_) => this
    }
  }

  /** What follows the escape character at the front of the text. */
  datatype Escape = DoubledEscape | FourDigits(value: nat) | SixDigits(value: nat) | NoEscape

  /** The byte at a position; the literal is followed by a zero byte. */
  function At(s: seq<byte>, i: nat): byte {
    if i < |s| then s[i] else 0
  }

  function EscapeAt(s: seq<byte>, t: Setting): (e: Escape)
    requires s != []
    ensures e.DoubledEscape? && t.escape != 0 ==> |s| >= 2
    ensures e.FourDigits? ==> |s| >= 5 && AllHex(s[1..5]) && e.value == HexValue(s[1..5]) && e.value <= 0xFFFF
    ensures e.SixDigits? ==> |s| >= 8 && AllHex(s[2..8]) && e.value == HexValue(s[2..8]) && e.value <= 0xFFFFFF
  {
    if t.IsEscape(At(s, 1)) then DoubledEscape
    else if |s| >= 5 && AllHex(s[1..5]) then HexBound(s[1..5]); FourDigits(HexValue(s[1..5]))
    else if At(s, 1) == PLUS && |s| >= 8 && AllHex(s[2..8]) then HexBound(s[2..8]); SixDigits(HexValue(s[2..8]))
    else NoEscape
  }

  function Power16(n: nat): nat {
    if n == 0 then 1 else 16 * Power16(n - 1)
  }

  lemma {:induction false} HexBound(d: seq<byte>)
    requires AllHex(d)
    ensures HexValue(d) < Power16(|d|)
    ensures Power16(4) == 0x10000 && Power16(6) == 0x1000000
  {
    if d != [] { HexBound(d[..|d| - 1]); }
    assert Power16(2) == 256 && Power16(4) == 256 * Power16(2) && Power16(6) == 256 * Power16(4);
  }

  /** The meaning of a literal's text; `first` is a pending first surrogate, or 0. */
  function Decoded(s: seq<byte>, t: Setting, first: nat): Outcome
    requires t.escape != 0
    decreases |s|
  {
    if s == [] then
      if first != 0 then Rejected(InvalidSurrogatePair) else Accepted([])
    else if !t.IsEscape(s[0]) then
      if first != 0 then Rejected(InvalidSurrogatePair) else Decoded(s[1..], t, 0).After([s[0]])
    else
      match EscapeAt(s, t)
      case NoEscape => Rejected(InvalidEscapeValue)
      case DoubledEscape =>
        if first != 0 then Rejected(InvalidSurrogatePair) else Decoded(s[2..], t, 0).After([t.escape])
      case FourDigits(v) => DecodedCode(s, t, first, v, 5)
      case SixDigits(v) => DecodedCode(s, t, first, v, 8)
  }

  function DecodedCode(s: seq<byte>, t: Setting, first: nat, v: nat, len: nat): Outcome
    requires t.escape != 0 && 0 < len <= |s|
    decreases |s|, 0
  {
    if !t.utf8 && v > 0x7F then Rejected(NotUtf8)
    else if first != 0 then
      if IsSecondSurrogate(v) then Decoded(s[len..], t, 0).After(Encode(SurrogatePairToCodepoint(first, v)))
      else Rejected(InvalidSurrogatePair)
    else if IsSecondSurrogate(v) then Rejected(InvalidSurrogatePair)
    else if IsFirstSurrogate(v) then Decoded(s[len..], t, v)
    else Decoded(s[len..], t, 0).After(Encode(v))
  }

  /** One numeric escape as written: its digits, four of them or six after a plus sign. */
  datatype Code = Code(digits: seq<byte>) {
    ghost predicate Valid() {
      (|digits| == 4 || |digits| == 6) && AllHex(digits)
    }

    ghost function Text(t: Setting): seq<byte> {
      if |digits| == 4 then [t.escape] + digits else [t.escape, '+' as int] + digits
    }
  }

  /** What a literal is made of. */
  datatype Piece = Raw(b: byte) | Doubled | Single(c: Code) | Pair(hi: Code, lo: Code) {
    ghost predicate Valid(t: Setting) {
      match this
      case Raw(b) => b != t.escape
      case Doubled => true
      case Single(c) => c.Valid() && !IsSurrogate(HexValue(c.digits)) && (t.utf8 || HexValue(c.digits) <= 0x7F)
      case Pair(hi, lo) =>
        hi.Valid() && lo.Valid() && IsFirstSurrogate(HexValue(hi.digits)) && IsSecondSurrogate(HexValue(lo.digits)) && t.utf8
    }

    ghost function Text(t: Setting): seq<byte> {
      match this
      case Raw(b) => [b]
      case Doubled => [t.escape, t.escape]
      case Single(c) => c.Text(t)
      case Pair(hi, lo) => hi.Text(t) + lo.Text(t)
    }

    ghost function Meaning(t: Setting): seq<byte>
      requires Valid(t)
    {
      match this
      case Raw(b) => [b]
      case Doubled => [t.escape]
      case Single(c) => Encode(HexValue(c.digits))
      case Pair(hi, lo) => Encode(SurrogatePairToCodepoint(HexValue(hi.digits), HexValue(lo.digits)))
    }
  }

  ghost predicate AllValid(ps: seq<Piece>, t: Setting) {
    forall i :: 0 <= i < |ps| ==> ps[i].Valid(t)
  }

  ghost function Texts(ps: seq<Piece>, t: Setting): seq<byte> {
    if ps == [] then [] else ps[0].Text(t) + Texts(ps[1..], t)
  }

  ghost function Meanings(ps: seq<Piece>, t: Setting): seq<byte>
    requires AllValid(ps, t)
  {
    if ps == [] then [] else ps[0].Meaning(t) + Meanings(ps[1..], t)
  }

  /** A numeric escape at the front of the text is read as such. */
  lemma CodeIsRead(c: Code, t: Setting, rest: seq<byte>)
    requires c.Valid() && CheckUescapechar(t.escape) && t.IsEscape(t.escape)
    ensures var s := c.Text(t) + rest;
            && s[0] == t.escape && |c.Text(t)| == (if |c.digits| == 4 then 5 else 8) && s[|c.Text(t)|..] == rest
            && EscapeAt(s, t) == if |c.digits| == 4 then FourDigits(HexValue(c.digits)) else SixDigits(HexValue(c.digits))
  {
    var text := c.Text(t);
    var s := text + rest;
    assert s[0] == t.escape && s[|text|..] == rest;
    if |c.digits| == 4 {
      assert s[1..5] == c.digits;
      assert s[1] == c.digits[0];
    } else {
      assert s[2..8] == c.digits;
      assert s[1] == PLUS && s[1..5][0] == PLUS && !IsHexDigit(PLUS);
    }
  }

  lemma DecodedOneCode(c: Code, t: Setting, rest: seq<byte>, first: nat)
    requires c.Valid() && CheckUescapechar(t.escape) && t.escape != 0 && t.IsEscape(t.escape)
    ensures var s := c.Text(t) + rest;
            |c.Text(t)| > 0 && Decoded(s, t, first) == DecodedCode(s, t, first, HexValue(c.digits), |c.Text(t)|)
            && s[|c.Text(t)|..] == rest
  {
    CodeIsRead(c, t, rest);
  }

  lemma DecodedOnePair(hi: Code, lo: Code, t: Setting, rest: seq<byte>)
    requires Pair(hi, lo).Valid(t) && CheckUescapechar(t.escape) && t.escape != 0 && t.IsEscape(t.escape)
    ensures Decoded(Pair(hi, lo).Text(t) + rest, t, 0) == Decoded(rest, t, 0).After(Pair(hi, lo).Meaning(t))
  {
    assert hi.Text(t) + lo.Text(t) + rest == hi.Text(t) + (lo.Text(t) + rest);
    DecodedOneCode(hi, t, lo.Text(t) + rest, 0);
    DecodedOneCode(lo, t, rest, HexValue(hi.digits));
  }

  lemma DecodedOnePlain(p: Piece, t: Setting, rest: seq<byte>)
    requires (p.Raw? || p.Doubled?) && p.Valid(t) && t.escape != 0 && t.IsEscape(t.escape)
    ensures Decoded(p.Text(t) + rest, t, 0) == Decoded(rest, t, 0).After(p.Meaning(t))
  {
    var s := p.Text(t) + rest;
    if p.Raw? {
      assert s[0] == p.b && s[1..] == rest;
    } else {
      assert s[0] == t.escape && s[1] == t.escape && s[2..] == rest;
    }
  }

  lemma DecodedOnePiece(p: Piece, t: Setting, rest: seq<byte>)
    requires p.Valid(t) && CheckUescapechar(t.escape) && t.escape != 0 && t.IsEscape(t.escape)
    ensures Decoded(p.Text(t) + rest, t, 0) == Decoded(rest, t, 0).After(p.Meaning(t))
  {
    match p
    case Pair(hi, lo) => DecodedOnePair(hi, lo, t, rest);
    case Single(c) => DecodedOneCode(c, t, rest, 0);
    case _ => DecodedOnePlain(p, t, rest);
  }

  /** Pieces are decoded to their meanings, whatever follows them. */
  lemma {:induction false} DecodedPieces(ps: seq<Piece>, t: Setting, rest: seq<byte>)
    requires AllValid(ps, t) && CheckUescapechar(t.escape) && t.escape != 0 && t.IsEscape(t.escape)
    ensures Decoded(Texts(ps, t) + rest, t, 0) == Decoded(rest, t, 0).After(Meanings(ps, t))
  {
    var o := Decoded(rest, t, 0);
    if ps == [] {
      assert [] + rest == rest;
      if o.Accepted? { assert [] + o.out == o.out; }
    } else {
      DecodedOnePiece(ps[0], t, Texts(ps[1..], t) + rest);
      Regrouped(ps[0].Text(t), Texts(ps[1..], t), rest);
      DecodedPieces(ps[1..], t, rest);
      AfterAfter(o, ps[0].Meaning(t), Meanings(ps[1..], t));
    }
  }

  lemma Regrouped(a: seq<byte>, b: seq<byte>, c: seq<byte>)
    ensures a + b + c == a + (b + c)
  {
  }

  lemma AfterAfter(o: Outcome, a: seq<byte>, b: seq<byte>)
    ensures o.After(b).After(a) == o.After(a + b)
  {
    if o.Accepted? { assert a + (b + o.out) == a + b + o.out; }
  }

  /** Decoding undoes escaping, whatever mixture of escapes was used. */
  lemma DecodeUndoesEscaping(ps: seq<Piece>, t: Setting)
    requires AllValid(ps, t) && CheckUescapechar(t.escape) && t.escape != 0 && t.IsEscape(t.escape)
    ensures Decoded(Texts(ps, t), t, 0) == Accepted(Meanings(ps, t))
  {
    DecodedPieces(ps, t, []);
    assert Texts(ps, t) + [] == Texts(ps, t) && Meanings(ps, t) + [] == Meanings(ps, t);
  }

  /** An escape character the platform cannot recognise escapes nothing. */
  lemma {:induction false} UnrecognisedIsCopied(s: seq<byte>, t: Setting)
    requires t.escape != 0 && !t.IsEscape(t.escape)
    ensures Decoded(s, t, 0) == Accepted(s)
  {
    if s != [] {
      UnrecognisedIsCopied(s[1..], t);
      assert s == [s[0]] + s[1..];
    }
  }

  /** With a signed plain char a doubled escape character 200 stays doubled. */
  lemma SignedCharExample()
    ensures Decoded([200, 200], Setting(200, true, true), 0) == Accepted([200, 200])
  {
    UnrecognisedIsCopied([200, 200], Setting(200, true, true));
  }

  /** It does so for all texts exactly when the platform can recognise the escape character. */
  lemma DecodeUndoesEscapingIff(t: Setting)
    requires CheckUescapechar(t.escape) && t.escape != 0
    ensures (forall ps {:trigger AllValid(ps, t)} :: AllValid(ps, t) ==> Decoded(Texts(ps, t), t, 0) == Accepted(Meanings(ps, t)))
       <==> !(t.signedChar && t.escape >= 128)
  {
    if t.signedChar && t.escape >= 128 {
      var ps := [Doubled];
      assert AllValid(ps, t);
      assert ps[1..] == [];
      assert Texts(ps[1..], t) == [] && Meanings(ps[1..], t) == [];
      assert Texts(ps, t) == ps[0].Text(t) + Texts(ps[1..], t);
      assert Meanings(ps, t) == ps[0].Meaning(t) + Meanings(ps[1..], t);
      UnrecognisedIsCopied(Texts(ps, t), t);
      assert |Texts(ps, t)| != |Meanings(ps, t)|;
    } else {
      forall ps | AllValid(ps, t) ensures Decoded(Texts(ps, t), t, 0) == Accepted(Meanings(ps, t)) {
        DecodeUndoesEscaping(ps, t);
      }
    }
  }

  /** Reads a code and the rest of an accepted text off its front. */
  ghost function CodeAt(s: seq<byte>, len: nat): Code
    requires (len == 5 || len == 8) && len <= |s|
  {
    if len == 5 then Code(s[1..5]) else Code(s[2..8])
  }

  lemma CodeAtText(s: seq<byte>, t: Setting, len: nat)
    requires s != [] && t.escape != 0 && t.IsEscape(s[0]) && (len == 5 || len == 8)
    requires if len == 5 then EscapeAt(s, t).FourDigits? else EscapeAt(s, t).SixDigits?
    ensures len <= |s| && CodeAt(s, len).Valid() && HexValue(CodeAt(s, len).digits) == EscapeAt(s, t).value
    ensures s == CodeAt(s, len).Text(t) + s[len..]
  {
    if len == 5 {
      assert s == [s[0]] + s[1..5] + s[5..];
    } else {
      assert s == [s[0]] + [s[1]] + s[2..8] + s[8..];
    }
  }

  /** Whatever is accepted is a sequence of pieces, and the output is their meaning: no code point is a
      surrogate, and surrogates are accepted in pairs only. */
  lemma {:induction false} AcceptedIsPieces(s: seq<byte>, t: Setting) returns (ps: seq<Piece>)
    requires t.escape != 0 && t.IsEscape(t.escape) && Decoded(s, t, 0).Accepted?
    ensures AllValid(ps, t) && Texts(ps, t) == s && Decoded(s, t, 0).out == Meanings(ps, t)
    decreases |s|
  {
    if s == [] {
      ps := [];
    } else {
      var p, len := FrontPiece(s, t);
      var rest := AcceptedIsPieces(s[len..], t);
      ps := [p] + rest;
      assert ps[1..] == rest;
    }
  }

  lemma FrontPiece(s: seq<byte>, t: Setting) returns (p: Piece, len: nat)
    requires s != [] && t.escape != 0 && t.IsEscape(t.escape) && Decoded(s, t, 0).Accepted?
    ensures 0 < len <= |s| && p.Valid(t) && s == p.Text(t) + s[len..]
    ensures Decoded(s[len..], t, 0).Accepted? && Decoded(s, t, 0) == Decoded(s[len..], t, 0).After(p.Meaning(t))
  {
    if !t.IsEscape(s[0]) {
      p, len := Raw(s[0]), 1;
    } else if EscapeAt(s, t).DoubledEscape? {
      p, len := Doubled, 2;
      assert s == [s[0], s[1]] + s[2..];
    } else {
      len := if EscapeAt(s, t).FourDigits? then 5 else 8;
      CodeAtText(s, t, len);
      var hi := CodeAt(s, len);
      if IsFirstSurrogate(HexValue(hi.digits)) {
        var lo, len2 := SecondHalf(s[len..], t, HexValue(hi.digits));
        JoinPair(s, t, hi, lo, len, len2);
        p, len := Pair(hi, lo), len + len2;
      } else {
        p := Single(hi);
      }
    }
  }

  lemma JoinPair(s: seq<byte>, t: Setting, hi: Code, lo: Code, len: nat, len2: nat)
    requires len + len2 <= |s| && s == hi.Text(t) + s[len..] && s[len..] == lo.Text(t) + s[len..][len2..]
    ensures s[len..][len2..] == s[len + len2..] && s == Pair(hi, lo).Text(t) + s[len + len2..]
  {
    assert s[len..][len2..] == s[len + len2..];
    assert s == hi.Text(t) + (lo.Text(t) + s[len + len2..]);
  }

  /** A pending first surrogate is followed by a second one. */
  lemma SecondHalf(s: seq<byte>, t: Setting, first: nat) returns (c: Code, len: nat)
    requires first != 0 && t.escape != 0 && t.IsEscape(t.escape) && Decoded(s, t, first).Accepted?
    ensures 0 < len <= |s| && c.Valid() && IsSecondSurrogate(HexValue(c.digits)) && t.utf8 && s == c.Text(t) + s[len..]
    ensures Decoded(s, t, first)
      == Decoded(s[len..], t, 0).After(Encode(SurrogatePairToCodepoint(first, HexValue(c.digits))))
  {
    len := if EscapeAt(s, t).FourDigits? then 5 else 8;
    CodeAtText(s, t, len);
    c := CodeAt(s, len);
  }

  /** A numeric escape stands at the front of the text. */
  ghost predicate StartsWith(s: seq<byte>, t: Setting, c: Code) {
    c.Valid() && c.Text(t) <= s
  }

  /** Why a text cannot be read on where `rest` starts; `pending` says that the first half of a pair stands
      right before it. */
  ghost predicate Fault(rest: seq<byte>, t: Setting, pending: bool, error: Error) {
    match error
    case InvalidEscapeValue =>
      [t.escape] <= rest && !([t.escape, t.escape] <= rest) && forall c :: !StartsWith(rest, t, c)
    case NotUtf8 =>
      !t.utf8 && exists c :: StartsWith(rest, t, c) && HexValue(c.digits) > 0x7F
    case InvalidSurrogatePair =>
      t.utf8 &&
      if pending then
        !([t.escape] <= rest) || [t.escape, t.escape] <= rest ||
        exists c :: StartsWith(rest, t, c) && !IsSecondSurrogate(HexValue(c.digits))
      else exists c :: StartsWith(rest, t, c) && IsSecondSurrogate(HexValue(c.digits))
    case InvalidByteSequence => false
  }

  /** A text is pieces, possibly a first half of a pair, and then something that cannot be read on. */
  ghost predicate FailsAfter(s: seq<byte>, t: Setting, ps: seq<Piece>, half: seq<Code>, rest: seq<byte>, error: Error) {
    AllValid(ps, t) && IsHalf(half, t) && s == Texts(ps, t) + (HalfText(half, t) + rest) && Fault(rest, t, half != [], error)
  }

  ghost predicate IsHalf(half: seq<Code>, t: Setting) {
    half == [] || (|half| == 1 && t.utf8 && half[0].Valid() && IsFirstSurrogate(HexValue(half[0].digits)))
  }

  ghost function HalfText(half: seq<Code>, t: Setting): seq<byte> {
    if half == [] then [] else half[0].Text(t)
  }

  lemma PrefixOf(a: seq<byte>, s: seq<byte>)
    requires a <= s
    ensures s == a + s[|a|..]
  {
  }

  lemma StartsWithRead(s: seq<byte>, t: Setting, c: Code)
    requires StartsWith(s, t, c) && CheckUescapechar(t.escape) && t.IsEscape(t.escape)
    ensures s != [] && s[0] == t.escape && |c.Text(t)| == if |c.digits| == 4 then 5 else 8
    ensures EscapeAt(s, t) == if |c.digits| == 4 then FourDigits(HexValue(c.digits)) else SixDigits(HexValue(c.digits))
  {
    PrefixOf(c.Text(t), s);
    CodeIsRead(c, t, s[|c.Text(t)|..]);
  }

  /** What is read as an escape stands there. */
  lemma ReadStands(s: seq<byte>, t: Setting)
    requires s != [] && s[0] == t.escape != 0 && t.IsEscape(t.escape) && CheckUescapechar(t.escape)
    ensures [t.escape] <= s
    ensures EscapeAt(s, t).DoubledEscape? <==> [t.escape, t.escape] <= s
    ensures EscapeAt(s, t).NoEscape? ==> forall c :: !StartsWith(s, t, c)
    ensures EscapeAt(s, t).FourDigits? ==> StartsWith(s, t, CodeAt(s, 5)) && HexValue(CodeAt(s, 5).digits) == EscapeAt(s, t).value
    ensures EscapeAt(s, t).SixDigits? ==> StartsWith(s, t, CodeAt(s, 8)) && HexValue(CodeAt(s, 8).digits) == EscapeAt(s, t).value
  {
    forall c | StartsWith(s, t, c) ensures !EscapeAt(s, t).NoEscape? {
      StartsWithRead(s, t, c);
    }
    if EscapeAt(s, t).FourDigits? { CodeAtText(s, t, 5); }
    if EscapeAt(s, t).SixDigits? { CodeAtText(s, t, 8); }
  }

  lemma FaultRejects(rest: seq<byte>, t: Setting, first: nat, error: Error)
    requires t.escape != 0 && CheckUescapechar(t.escape) && t.IsEscape(t.escape)
    requires Fault(rest, t, first != 0, error) && (first != 0 ==> t.utf8)
    ensures Decoded(rest, t, first) == Rejected(error)
  {
    if [t.escape] <= rest {
      ReadStands(rest, t);
      forall c | StartsWith(rest, t, c)
        ensures Decoded(rest, t, first) == DecodedCode(rest, t, first, HexValue(c.digits), |c.Text(t)|)
      {
        StartsWithRead(rest, t, c);
      }
    } else if rest != [] {
      assert rest[0] == t.escape ==> [t.escape] <= rest;
    }
  }

  lemma HalfRejects(s: seq<byte>, t: Setting, half: seq<Code>, rest: seq<byte>, error: Error)
    requires t.escape != 0 && CheckUescapechar(t.escape) && t.IsEscape(t.escape)
    requires IsHalf(half, t) && Fault(rest, t, half != [], error) && s == HalfText(half, t) + rest
    ensures Decoded(s, t, 0) == Rejected(error)
  {
    if half == [] {
      assert s == rest;
      FaultRejects(rest, t, 0, error);
    } else {
      DecodedOneCode(half[0], t, rest, 0);
      FaultRejects(rest, t, HexValue(half[0].digits), error);
    }
  }

  lemma FailureRejects(s: seq<byte>, t: Setting, ps: seq<Piece>, half: seq<Code>, rest: seq<byte>, error: Error)
    requires t.escape != 0 && CheckUescapechar(t.escape) && t.IsEscape(t.escape)
    requires FailsAfter(s, t, ps, half, rest, error)
    ensures Decoded(s, t, 0) == Rejected(error)
  {
    var tail := HalfText(half, t) + rest;
    HalfRejects(tail, t, half, rest, error);
    DecodedPieces(ps, t, tail);
  }

  /** A rejected text starts with a piece, behind which the same error occurs, or with a fault, possibly
      behind half a pair. */
  ghost predicate Front(s: seq<byte>, t: Setting, ps: seq<Piece>, half: seq<Code>, len: nat, error: Error)
    requires t.escape != 0
  {
    len <= |s| &&
    if ps == [] then IsHalf(half, t) && s == HalfText(half, t) + s[len..] && Fault(s[len..], t, half != [], error)
    else |ps| == 1 && ps[0].Valid(t) && len > 0 && s == ps[0].Text(t) + s[len..] && Decoded(s[len..], t, 0) == Rejected(error)
  }

  lemma FrontOfRejected(s: seq<byte>, t: Setting) returns (ps: seq<Piece>, half: seq<Code>, len: nat)
    requires t.escape != 0 && t.IsEscape(t.escape) && CheckUescapechar(t.escape) && Decoded(s, t, 0).Rejected?
    ensures Front(s, t, ps, half, len, Decoded(s, t, 0).error)
  {
    ps, half, len := [], [], 0;
    if s[0] != t.escape {
      return [Raw(s[0])], [], 1;
    }
    ReadStands(s, t);
    assert s == [] + s[0..];
    if EscapeAt(s, t).DoubledEscape? {
      assert s == [s[0], s[1]] + s[2..];
      return [Doubled], [], 2;
    } else if !EscapeAt(s, t).NoEscape? {
      ps, half, len := FrontWithCode(s, t, if EscapeAt(s, t).FourDigits? then 5 else 8);
    }
  }

  lemma FrontWithCode(s: seq<byte>, t: Setting, n: nat) returns (ps: seq<Piece>, half: seq<Code>, len: nat)
    requires t.escape != 0 && t.IsEscape(t.escape) && CheckUescapechar(t.escape) && Decoded(s, t, 0).Rejected?
    requires s != [] && s[0] == t.escape && (n == 5 || n == 8)
    requires if n == 5 then EscapeAt(s, t).FourDigits? else EscapeAt(s, t).SixDigits?
    ensures Front(s, t, ps, half, len, Decoded(s, t, 0).error)
  {
    CodeAtText(s, t, n);
    var c := CodeAt(s, n);
    var v := HexValue(c.digits);
    assert Decoded(s, t, 0) == DecodedCode(s, t, 0, v, n);
    if (!t.utf8 && v > 0x7F) || IsSecondSurrogate(v) {
      ReadStands(s, t);
      assert StartsWith(s, t, c) && s == [] + s[0..];
      return [], [], 0;
    } else if IsFirstSurrogate(v) {
      ps, half, len := FrontAfterHalf(s, t, c, n);
    } else {
      return [Single(c)], [], n;
    }
  }

  lemma FrontAfterHalf(s: seq<byte>, t: Setting, hi: Code, n: nat) returns (ps: seq<Piece>, half: seq<Code>, len: nat)
    requires t.escape != 0 && t.IsEscape(t.escape) && CheckUescapechar(t.escape) && t.utf8
    requires 0 < n <= |s| && hi.Valid() && s == hi.Text(t) + s[n..] && IsFirstSurrogate(HexValue(hi.digits))
    requires Decoded(s, t, 0) == Decoded(s[n..], t, HexValue(hi.digits)) && Decoded(s, t, 0).Rejected?
    ensures Front(s, t, ps, half, len, Decoded(s, t, 0).error)
  {
    var (rest, first) := (s[n..], HexValue(hi.digits));
    if rest != [] && rest[0] == t.escape {
      ReadStands(rest, t);
      if EscapeAt(rest, t).FourDigits? || EscapeAt(rest, t).SixDigits? {
        var m := if EscapeAt(rest, t).FourDigits? then 5 else 8;
        CodeAtText(rest, t, m);
        var lo := CodeAt(rest, m);
        assert Decoded(rest, t, first) == DecodedCode(rest, t, first, HexValue(lo.digits), m);
        if IsSecondSurrogate(HexValue(lo.digits)) {
          JoinPair(s, t, hi, lo, n, m);
          return [Pair(hi, lo)], [], n + m;
        }
      }
    }
    return [], [hi], n;
  }

  lemma {:induction false} RejectedFails(s: seq<byte>, t: Setting)
    returns (ps: seq<Piece>, half: seq<Code>, rest: seq<byte>)
    requires t.escape != 0 && t.IsEscape(t.escape) && CheckUescapechar(t.escape) && Decoded(s, t, 0).Rejected?
    ensures FailsAfter(s, t, ps, half, rest, Decoded(s, t, 0).error)
    decreases |s|
  {
    var front, h, len := FrontOfRejected(s, t);
    if front == [] {
      ps, half, rest := [], h, s[len..];
      assert s == Texts([], t) + (HalfText(half, t) + rest);
    } else {
      ps, half, rest := RejectedFails(s[len..], t);
      FailsLater(s, t, front[0], ps, half, rest, len, Decoded(s, t, 0).error);
      ps := [front[0]] + ps;
    }
  }

  lemma FailsLater(s: seq<byte>, t: Setting, p: Piece, ps: seq<Piece>, half: seq<Code>, rest: seq<byte>, len: nat,
                   error: Error)
    requires len <= |s| && p.Valid(t) && s == p.Text(t) + s[len..] && FailsAfter(s[len..], t, ps, half, rest, error)
    ensures FailsAfter(s, t, [p] + ps, half, rest, error)
  {
    var more := [p] + ps;
    assert more[1..] == ps;
    AllValidCons(more, t);
    Regrouped(p.Text(t), Texts(ps, t), HalfText(half, t) + rest);
  }

  /** A text is rejected with an error exactly when it can be read as pieces up to a place with that fault. */
  lemma RejectedIff(s: seq<byte>, t: Setting, error: Error)
    requires t.escape != 0 && CheckUescapechar(t.escape) && t.IsEscape(t.escape)
    ensures Decoded(s, t, 0) == Rejected(error) <==> exists ps, half, rest :: FailsAfter(s, t, ps, half, rest, error)
  {
    if Decoded(s, t, 0) == Rejected(error) {
      var ps, half, rest := RejectedFails(s, t);
    }
    forall ps, half, rest | FailsAfter(s, t, ps, half, rest, error) ensures Decoded(s, t, 0) == Rejected(error) {
      FailureRejects(s, t, ps, half, rest, error);
    }
  }

  /** The subtle assumption of the source: what a piece stands for is never longer than the piece. */
  lemma {:induction false} MeaningsNoLonger(ps: seq<Piece>, t: Setting)
    requires AllValid(ps, t)
    ensures |Meanings(ps, t)| <= |Texts(ps, t)|
  {
    if ps != [] {
      if ps[0].Single? { HexBound(ps[0].c.digits); }
      MeaningsNoLonger(ps[1..], t);
    }
  }

  /** So no accepted literal outgrows its text. */
  lemma AcceptedNoLonger(s: seq<byte>, t: Setting)
    requires t.escape != 0 && Decoded(s, t, 0).Accepted?
    ensures |Decoded(s, t, 0).out| <= |s|
  {
    if t.IsEscape(t.escape) {
      var ps := AcceptedIsPieces(s, t);
      MeaningsNoLonger(ps, t);
    } else {
      UnrecognisedIsCopied(s, t);
    }
  }

  /** A surrogate pair stands for a code point beyond the basic plane. */
  lemma PairIsSupplementary(hi: nat, lo: nat)
    requires IsFirstSurrogate(hi) && IsSecondSurrogate(lo)
    ensures SurrogatePairToCodepoint(hi, lo) == 0x10000 + (hi - 0xD800) * 0x400 + (lo - 0xDC00)
    ensures 0x10000 <= SurrogatePairToCodepoint(hi, lo) <= MAX_SCALAR
  {
    assert hi % 0x400 == hi - 0xD800 && lo % 0x400 == lo - 0xDC00;
  }

  /** No accepted code is a surrogate, but the bytes of one may decode to a surrogate: exactly those of a
      value beyond the basic plane whose low 21 bits are one, such as 20D800. */
  lemma CodeDecodesToSurrogateIff(c: Code, t: Setting)
    requires Single(c).Valid(t)
    ensures var v := HexValue(c.digits);
            IsSurrogate(DecodeFirst(Encode(v))) <==> v > 0xFFFF && IsSurrogate(v % 0x200000)
    ensures HexValue(c.digits) <= MAX_SCALAR ==> IsScalar(DecodeFirst(Encode(HexValue(c.digits))))
  {
    SurrogateBytesIff(HexValue(c.digits));
  }

  /** How to write a scalar value as an escape; every digit may be of either case. */
  datatype Form = Short | Long | BySurrogates

  datatype Style = Style(form: Form, upper: nat -> bool) {
    predicate Fits(c: int) {
      IsScalar(c) && (form.Short? ==> c <= 0xFFFF) && (form.BySurrogates? ==> c >= 0x10000)
    }
  }

  function Digit(v: nat, upper: bool): (b: byte)
    requires v < 16
    ensures IsHexDigit(b)
  {
    if v < 10 then '0' as int + v else (if upper then 'A' as int else 'a' as int) + (v - 10)
  }

  lemma DigitOf(b: byte)
    requires IsHexDigit(b)
    ensures Digit(HexVal(b), b < 'a' as int) == b
  {
  }

  lemma DigitVal(v: nat, upper: bool)
    requires v < 16
    ensures HexVal(Digit(v, upper)) == v
    ensures Digit(v, upper) == (if upper then UPPER_DIGITS[v] else LOWER_DIGITS[v]) as int
  {
  }

  /** The last `n` digits of a number; `upper` says which positions get an upper-case digit. */
  function Digits(v: nat, n: nat, upper: nat -> bool): (d: seq<byte>)
    ensures |d| == n && AllHex(d)
  {
    if n == 0 then [] else Digits(v / 16, n - 1, upper) + [Digit(v % 16, upper(n - 1))]
  }

  lemma {:induction false} DigitsValue(v: nat, n: nat, upper: nat -> bool)
    requires v < Power16(n)
    ensures HexValue(Digits(v, n, upper)) == v
  {
    if n > 0 {
      DigitsValue(v / 16, n - 1, upper);
      DigitVal(v % 16, upper(n - 1));
      var d := Digits(v, n, upper);
      assert d[..n - 1] == Digits(v / 16, n - 1, upper) && d[n - 1] == Digit(v % 16, upper(n - 1));
    }
  }

  lemma DigitsOneMore(high: nat, v: nat, n: nat, upper: nat -> bool)
    requires v < 16
    ensures Digits(16 * high + v, n + 1, upper) == Digits(high, n, upper) + [Digit(v, upper(n))]
  {
    assert (16 * high + v) / 16 == high && (16 * high + v) % 16 == v;
  }

  /** Conversely every digit text is what its value is written as, in its own letter case. */
  lemma {:induction false} ValueDigits(d: seq<byte>, upper: nat -> bool)
    requires AllHex(d) && forall i: nat :: i < |d| ==> upper(i) == (d[i] < 'a' as int)
    ensures Digits(HexValue(d), |d|, upper) == d
  {
    if d != [] {
      var n := |d| - 1;
      var (front, last) := (d[..n], d[n]);
      assert HexValue(d) == 16 * HexValue(front) + HexVal(last) && upper(n) == (last < 'a' as int);
      ValueDigits(front, upper);
      DigitsOneMore(HexValue(front), HexVal(last), n, upper);
      DigitOf(last);
      assert d == front + [last];
    }
  }

  function FromFourth(upper: nat -> bool): nat -> bool {
    (i: nat) => upper(i + 4)
  }

  function EscapeScalar(c: nat, style: Style): Piece
    requires style.Fits(c)
  {
    match style.form
    case Short => Single(Code(Digits(c, 4, style.upper)))
    case Long => Single(Code(Digits(c, 6, style.upper)))
    case BySurrogates =>
      Pair(Code(Digits(0xD800 + (c - 0x10000) / 0x400, 4, style.upper)),
           Code(Digits(0xDC00 + (c - 0x10000) % 0x400, 4, FromFourth(style.upper))))
  }

  lemma SingleMeaning(c: nat, n: nat, upper: nat -> bool, t: Setting)
    requires t.utf8 && !IsSurrogate(c) && c < Power16(n) && (n == 4 || n == 6)
    ensures var p := Single(Code(Digits(c, n, upper))); p.Valid(t) && p.Meaning(t) == Encode(c)
  {
    DigitsValue(c, n, upper);
  }

  lemma PairHalves(c: nat, hi: nat, lo: nat)
    requires 0x10000 <= c <= MAX_SCALAR && hi == 0xD800 + (c - 0x10000) / 0x400 && lo == 0xDC00 + (c - 0x10000) % 0x400
    ensures IsFirstSurrogate(hi) && IsSecondSurrogate(lo) && SurrogatePairToCodepoint(hi, lo) == c
  {
    PairIsSupplementary(hi, lo);
    assert (c - 0x10000) / 0x400 * 0x400 + (c - 0x10000) % 0x400 == c - 0x10000;
  }

  lemma PairMeaning(c: nat, hi: nat, lo: nat, upper: nat -> bool, t: Setting)
    requires t.utf8 && IsFirstSurrogate(hi) && IsSecondSurrogate(lo) && SurrogatePairToCodepoint(hi, lo) == c
    ensures var p := Pair(Code(Digits(hi, 4, upper)), Code(Digits(lo, 4, FromFourth(upper))));
            p.Valid(t) && p.Meaning(t) == Encode(c)
  {
    HexBound([]);
    DigitsValue(hi, 4, upper);
    DigitsValue(lo, 4, FromFourth(upper));
  }

  lemma EscapeScalarMeaning(c: nat, style: Style, t: Setting)
    requires style.Fits(c) && t.utf8
    ensures EscapeScalar(c, style).Valid(t) && EscapeScalar(c, style).Meaning(t) == Encode(c)
  {
    HexBound([]);
    match style.form
    case Short => SingleMeaning(c, 4, style.upper, t);
    case Long => SingleMeaning(c, 6, style.upper, t);
    case BySurrogates =>
      var (hi, lo) := (0xD800 + (c - 0x10000) / 0x400, 0xDC00 + (c - 0x10000) % 0x400);
      PairHalves(c, hi, lo);
      PairMeaning(c, hi, lo, style.upper, t);
  }

  ghost function EscapeScalars(cs: seq<nat>, styles: seq<Style>): seq<Piece>
    requires |cs| == |styles| && forall i :: 0 <= i < |cs| ==> styles[i].Fits(cs[i])
  {
    seq(|cs|, i requires 0 <= i < |cs| => EscapeScalar(cs[i], styles[i]))
  }

  /** From scalar values to escapes of any style, through the scanner to bytes, and back by UTF-8. */
  lemma {:induction false} ScalarsRoundTrip(cs: seq<nat>, styles: seq<Style>, t: Setting)
    requires |cs| == |styles| && forall i :: 0 <= i < |cs| ==> styles[i].Fits(cs[i])
    requires CheckUescapechar(t.escape) && t.escape != 0 && t.IsEscape(t.escape) && t.utf8
    ensures var outcome := Decoded(Texts(EscapeScalars(cs, styles), t), t, 0);
            && outcome == Accepted(EncodeAll(cs)) && Decode(EncodeAll(cs)) == cs
            && (0 in EncodeAll(cs) <==> 0 in cs)
  {
    ZeroBytes(cs);
    ScalarsMean(cs, styles, t);
    DecodeUndoesEscaping(EscapeScalars(cs, styles), t);
    DecodeEncodeAll(cs);
  }

  lemma AllValidCons(ps: seq<Piece>, t: Setting)
    requires ps != [] && ps[0].Valid(t) && AllValid(ps[1..], t)
    ensures AllValid(ps, t)
  {
    assert ps == [ps[0]] + ps[1..];
  }

  lemma {:induction false} ScalarsMean(cs: seq<nat>, styles: seq<Style>, t: Setting)
    requires |cs| == |styles| && t.utf8 && forall i :: 0 <= i < |cs| ==> styles[i].Fits(cs[i])
    ensures AllValid(EscapeScalars(cs, styles), t) && Meanings(EscapeScalars(cs, styles), t) == EncodeAll(cs)
  {
    if cs != [] {
      var ps := EscapeScalars(cs, styles);
      EscapeScalarMeaning(cs[0], styles[0], t);
      assert ps[1..] == EscapeScalars(cs[1..], styles[1..]);
      ScalarsMean(cs[1..], styles[1..], t);
      AllValidCons(ps, t);
    }
  }
}
