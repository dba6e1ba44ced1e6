/** UTF-8 as in section 3 of RFC 3629. */
module Utf8 {

  type byte = b: int | 0 <= b < 256

  const MAX_SCALAR := 0x10FFFF

  predicate IsFirstSurrogate(c: int) {
    0xD800 <= c <= 0xDBFF
  }

  predicate IsSecondSurrogate(c: int) {
    0xDC00 <= c <= 0xDFFF
  }

  predicate IsSurrogate(c: int) {
    IsFirstSurrogate(c) || IsSecondSurrogate(c)
  }

  predicate IsScalar(c: int) {
    0 <= c <= MAX_SCALAR && !IsSurrogate(c)
  }

  /** The bytes of a code point; above MAX_SCALAR the four-byte form keeps the low 21 bits. */
  function Encode(c: nat): (bytes: seq<byte>)
    ensures 1 <= |bytes| <= 4
    ensures |bytes| == if c <= 0x7F then 1 else if c <= 0x7FF then 2 else if c <= 0xFFFF then 3 else 4
  {
    if c <= 0x7F then [c]
    else if c <= 0x7FF then [0xC0 + c / 64, Tail(c)]
    else if c <= 0xFFFF then [0xE0 + c / 64 / 64, Tail(c / 64), Tail(c)]
    else [0xF0 + c / 64 / 64 / 64 % 8, Tail(c / 64 / 64), Tail(c / 64), Tail(c)]
  }

  /** A byte that carries the low six bits. */
  function Tail(c: nat): byte {
    0x80 + c % 64
  }

  /** The length a first byte announces. */
  function LengthFrom(b: byte): nat {
    if b < 0x80 then 1 else if b < 0xE0 then 2 else if b < 0xF0 then 3 else 4
  }

  /** The code point at the front of some bytes. */
  function DecodeFirst(s: seq<byte>): int
    requires s != [] && LengthFrom(s[0]) <= |s|
  {
    var a: int := s[0];
    match LengthFrom(s[0])
    case 1 => a
    case 2 => Append(a - 0xC0, s[1])
    case 3 => Append(Append(a - 0xE0, s[1]), s[2])
    case _ => Append(Append(Append(a - 0xF0, s[1]), s[2]), s[3])
  }

  function Append(high: int, tail: byte): int {
    high * 64 + (tail as int - 0x80)
  }

  lemma AppendTail(c: nat)
    ensures Append(c / 64, Tail(c)) == c
  {
  }

  lemma DecodeTwo(c: nat)
    requires 0x7F < c <= 0x7FF
    ensures LengthFrom(Encode(c)[0]) == 2 && DecodeFirst(Encode(c)) == c
  {
    AppendTail(c);
    assert 1 < c / 64 < 32;
  }

  lemma DecodeThree(c: nat)
    requires 0x7FF < c <= 0xFFFF
    ensures LengthFrom(Encode(c)[0]) == 3 && DecodeFirst(Encode(c)) == c
  {
    var p := c / 64;
    AppendTail(c);
    AppendTail(p);
    assert p / 64 < 16;
    assert Encode(c) == [0xE0 + p / 64, Tail(p), Tail(c)];
  }

  lemma DecodeFour(c: nat)
    requires c > 0xFFFF
    ensures LengthFrom(Encode(c)[0]) == 4 && DecodeFirst(Encode(c)) == c % 0x200000
  {
    var p := c / 64;
    var q := p / 64;
    var r := q / 64;
    assert Encode(c) == [0xF0 + r % 8, Tail(q), Tail(p), Tail(c)];
    SplitBits(c, p, q, r);
  }

  lemma SplitBits(c: nat, p: nat, q: nat, r: nat)
    requires p == c / 64 && q == p / 64 && r == q / 64
    ensures Append(Append(Append(r % 8, Tail(q)), Tail(p)), Tail(c)) == c % 0x200000
  {
    assert c == 64 * p + c % 64 && p == 64 * q + p % 64 && q == 64 * r + q % 64 && r == 8 * (r / 8) + r % 8;
    LowPart(c, r / 8, 64 * (64 * (64 * (r % 8) + q % 64) + p % 64) + c % 64);
  }

  lemma LowPart(c: nat, k: nat, low: nat)
    requires c == 0x200000 * k + low && low < 0x200000
    ensures c % 0x200000 == low
  {
  }

  /** Any value comes back from its bytes, but for the bits above the low 21 of a four-byte sequence. */
  lemma DecodeEncodeAny(c: nat)
    ensures LengthFrom(Encode(c)[0]) == |Encode(c)|
    ensures DecodeFirst(Encode(c)) == if c <= 0xFFFF then c else c % 0x200000
  {
    if 0x7F < c <= 0x7FF {
      DecodeTwo(c);
    } else if 0x7FF < c <= 0xFFFF {
      DecodeThree(c);
    } else if c > 0xFFFF {
      DecodeFour(c);
    }
  }

  /** So of values that are no surrogates, exactly those beyond the basic plane whose low 21 bits are one
      decode to one. */
  lemma SurrogateBytesIff(c: nat)
    requires !IsSurrogate(c)
    ensures IsSurrogate(DecodeFirst(Encode(c))) <==> c > 0xFFFF && IsSurrogate(c % 0x200000)
    ensures c <= MAX_SCALAR ==> IsScalar(DecodeFirst(Encode(c)))
  {
    DecodeEncodeAny(c);
  }

  predicate IsTail(b: byte) {
    0x80 <= b <= 0xBF
  }

  /** One character, by the grammar in section 4 of RFC 3629. */
  predicate IsUtf8Char(s: seq<byte>) {
    match |s|
    case 1 => s[0] <= 0x7F
    case 2 => 0xC2 <= s[0] <= 0xDF && IsTail(s[1])
    case 3 =>
      && 0xE0 <= s[0] <= 0xEF && IsTail(s[1]) && IsTail(s[2])
      && (s[0] == 0xE0 ==> s[1] >= 0xA0) && (s[0] == 0xED ==> s[1] <= 0x9F)
    case 4 =>
      && 0xF0 <= s[0] <= 0xF4 && IsTail(s[1]) && IsTail(s[2]) && IsTail(s[3])
      && (s[0] == 0xF0 ==> s[1] >= 0x90) && (s[0] == 0xF4 ==> s[1] <= 0x8F)
    case _ => false
  }

  lemma EncodeIsChar(c: nat)
    requires IsScalar(c)
    ensures IsUtf8Char(Encode(c))
  {
    var p := c / 64;
    var q := p / 64;
    if 0x7FF < c <= 0xFFFF {
      assert Encode(c) == [0xE0 + q, Tail(p), Tail(c)] && p == 64 * q + p % 64;
    } else if c > 0xFFFF {
      var r := q / 64;
      assert q == 64 * r + q % 64 && r <= 4;
      assert Encode(c) == [0xF0 + r, Tail(q), Tail(p), Tail(c)];
    }
  }

  lemma TailAppend(high: nat, b: byte)
    requires IsTail(b)
    ensures Append(high, b) >= 0 && Append(high, b) / 64 == high && Tail(Append(high, b)) == b
  {
  }

  lemma ThreeEncoded(a: nat, b: byte, c: byte)
    requires a < 16 && IsTail(b) && IsTail(c) && (a == 0 ==> b >= 0xA0) && (a == 0xD ==> b <= 0x9F)
    ensures var v := Append(Append(a, b), c); IsScalar(v) && Encode(v) == [0xE0 + a, b, c]
  {
    var p := Append(a, b);
    TailAppend(a, b);
    TailAppend(p, c);
    assert 0x20 <= p < 0x400 && !(0x360 <= p < 0x380);
  }

  lemma FourBytes(v: nat, p: nat, q: nat, a: nat)
    requires v / 64 == p && p / 64 == q && q / 64 == a && a <= 4 && v > 0xFFFF
    ensures Encode(v) == [0xF0 + a, Tail(q), Tail(p), Tail(v)]
  {
    assert a % 8 == a;
  }

  lemma FourEncoded(a: nat, b: byte, c: byte, d: byte)
    requires a <= 4 && IsTail(b) && IsTail(c) && IsTail(d) && (a == 0 ==> b >= 0x90) && (a == 4 ==> b <= 0x8F)
    ensures var v := Append(Append(Append(a, b), c), d); IsScalar(v) && Encode(v) == [0xF0 + a, b, c, d]
  {
    var q := Append(a, b);
    var p := Append(q, c);
    var v := Append(p, d);
    assert 0x10 <= q < 0x110 && 0x400 <= p < 0x4400 && 0xFFFF < v <= MAX_SCALAR;
    TailAppend(a, b);
    TailAppend(q, c);
    TailAppend(p, d);
    FourBytes(v, p, q, a);
  }

  lemma CharIsEncoded(s: seq<byte>)
    requires IsUtf8Char(s)
    ensures LengthFrom(s[0]) == |s| && IsScalar(DecodeFirst(s)) && Encode(DecodeFirst(s)) == s
  {
    match |s|
    case 1 =>
    case 2 =>
      TailAppend(s[0] - 0xC0, s[1]);
    case 3 =>
      ThreeEncoded(s[0] - 0xE0, s[1], s[2]);
    case 4 =>
      FourEncoded(s[0] - 0xF0, s[1], s[2], s[3]);
  }

  /** The encodings of the scalar values are exactly the characters of that grammar. */
  lemma EncodedIffChar(s: seq<byte>)
    ensures (exists c: nat :: IsScalar(c) && Encode(c) == s) <==> IsUtf8Char(s)
  {
    forall c: nat | IsScalar(c) && Encode(c) == s ensures IsUtf8Char(s) { EncodeIsChar(c); }
    if IsUtf8Char(s) { CharIsEncoded(s); }
  }

  lemma DecodeEncode(c: nat, rest: seq<byte>)
    requires c <= MAX_SCALAR
    ensures var s := Encode(c) + rest;
            LengthFrom(s[0]) == |Encode(c)| && DecodeFirst(s) == c && s[|Encode(c)|..] == rest
  {
    DecodeEncodeAny(c);
    var (e, s) := (Encode(c), Encode(c) + rest);
    assert forall i :: 0 <= i < |e| ==> s[i] == e[i];
    assert s[|e|..] == rest;
  }

  /** The code points of some bytes, -1 where a character is cut off. */
  function Decode(s: seq<byte>): seq<int>
    decreases |s|
  {
    if s == [] then []
    else if LengthFrom(s[0]) > |s| then [-1]
    else [DecodeFirst(s)] + Decode(s[LengthFrom(s[0])..])
  }

  function EncodeAll(cs: seq<nat>): seq<byte> {
    if cs == [] then [] else Encode(cs[0]) + EncodeAll(cs[1..])
  }

  /** Encoding loses nothing. */
  lemma {:induction false} DecodeEncodeAll(cs: seq<nat>)
    requires forall i :: 0 <= i < |cs| ==> IsScalar(cs[i])
    ensures Decode(EncodeAll(cs)) == cs
  {
    if cs != [] {
      DecodeEncode(cs[0], EncodeAll(cs[1..]));
      DecodeEncodeAll(cs[1..]);
      assert cs == [cs[0]] + cs[1..];
    }
  }

  /** Only the code point zero is encoded with a zero byte. */
  lemma {:induction false} ZeroBytes(cs: seq<nat>)
    ensures 0 in EncodeAll(cs) <==> 0 in cs
  {
    if cs != [] {
      var (first, rest) := (Encode(cs[0]), EncodeAll(cs[1..]));
      ZeroBytes(cs[1..]);
      assert 0 in first <==> cs[0] == 0 by {
        if cs[0] == 0 { assert first[0] == 0; }
      }
      assert 0 in first + rest <==> 0 in first || 0 in rest;
      assert 0 in cs <==> cs[0] == 0 || 0 in cs[1..];
    }
  }
}
