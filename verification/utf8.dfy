/** UTF-8 by code points: the byte test accepts exactly the encodings of sequences of Unicode scalar values. */
module Utf8Encoding {
  import opened Words

  type Scalar = c: int | 0 <= c <= 0x10FFFF && !(0xD800 <= c <= 0xDFFF)

  /** Section 3 of RFC 3629. */
  function Encode(c: Scalar): (s: bytes)
    ensures 1 <= |s| <= 4
  {
    if c < 0x80 then [c]
    else if c < 0x800 then [0xC0 + c / 0x40, 0x80 + c % 0x40]
    else if c < 0x1_0000 then [0xE0 + c / 0x1000, 0x80 + c / 0x40 % 0x40, 0x80 + c % 0x40]
    else [0xF0 + c / 0x4_0000, 0x80 + c / 0x1000 % 0x40, 0x80 + c / 0x40 % 0x40, 0x80 + c % 0x40]
  }

  function EncodeAll(cs: seq<Scalar>): bytes {
    if cs == [] then [] else Encode(cs[0]) + EncodeAll(cs[1..])
  }

  /** The encoding of a scalar is taken for one character, whatever follows. */
  lemma EncodedIsOneChar(c: Scalar, rest: bytes)
    ensures Utf8CharLen(Encode(c) + rest) == |Encode(c)|
  {
    var e := Encode(c);
    var s := e + rest;
    assert forall i :: 0 <= i < |e| ==> s[i] == e[i];
  }

  /** A character is the encoding of a scalar. */
  lemma CharIsEncoded(s: bytes) returns (c: Scalar)
    requires Utf8CharLen(s) > 0
    ensures s[..Utf8CharLen(s)] == Encode(c)
  {
    var n := Utf8CharLen(s);
    if n == 1 {
      c := s[0];
    } else if n == 2 {
      c := Pair(s[0] - 0xC0, s[1]);
    } else if n == 3 {
      c := Triple(s[0] - 0xE0, s[1], s[2]);
    } else {
      c := Quadruple(s[0] - 0xF0, s[1], s[2], s[3]);
    }
  }

  lemma Pair(a: nat, b: byte) returns (c: Scalar)
    requires 2 <= a < 0x20 && Tail(b)
    ensures Encode(c) == [0xC0 + a, b]
  {
    c := a * 0x40 + (b - 0x80);
  }

  lemma Triple(a: nat, b: byte, d: byte) returns (c: Scalar)
    requires a < 0x10 && Tail(b) && Tail(d) && (a == 0 ==> 0xA0 <= b) && (a == 0xD ==> b <= 0x9F)
    ensures Encode(c) == [0xE0 + a, b, d]
  {
    c := a * 0x1000 + (b - 0x80) * 0x40 + (d - 0x80);
  }

  lemma Quadruple(a: nat, b: byte, d: byte, e: byte) returns (c: Scalar)
    requires a <= 4 && Tail(b) && Tail(d) && Tail(e) && (a == 0 ==> 0x90 <= b) && (a == 4 ==> b <= 0x8F)
    ensures Encode(c) == [0xF0 + a, b, d, e]
  {
    c := a * 0x4_0000 + (b - 0x80) * 0x1000 + (d - 0x80) * 0x40 + (e - 0x80);
    SixBits(a * 0x1000 + (b - 0x80) * 0x40 + (d - 0x80), e - 0x80);
    SixBits(a * 0x40 + (b - 0x80), d - 0x80);
    SixBits(a, b - 0x80);
    assert c / 0x1000 == c / 0x40 / 0x40 && c / 0x4_0000 == c / 0x40 / 0x40 / 0x40;
  }

  lemma SixBits(high: nat, low: nat)
    requires low < 0x40
    ensures (high * 0x40 + low) / 0x40 == high && (high * 0x40 + low) % 0x40 == low
  {
  }

  lemma {:induction false} EncodedIsValid(cs: seq<Scalar>)
    ensures ValidUtf8(EncodeAll(cs))
  {
    if cs != [] {
      var rest := EncodeAll(cs[1..]);
      EncodedIsOneChar(cs[0], rest);
      assert EncodeAll(cs)[|Encode(cs[0])|..] == rest;
      EncodedIsValid(cs[1..]);
    }
  }

  lemma {:induction false} ValidIsEncoded(s: bytes) returns (cs: seq<Scalar>)
    requires ValidUtf8(s)
    ensures EncodeAll(cs) == s
    decreases |s|
  {
    cs := [];
    if s != [] {
      var n := Utf8CharLen(s);
      var c := CharIsEncoded(s);
      var rest := ValidIsEncoded(s[n..]);
      cs := [c] + rest;
      assert cs[1..] == rest && s == s[..n] + s[n..];
    }
  }

  /** The byte test of a name is exact: the bytes encode some sequence of scalar values, and any sequence passes. */
  lemma ValidIffEncoded(s: bytes)
    ensures ValidUtf8(s) <==> exists cs :: EncodeAll(cs) == s
  {
    if ValidUtf8(s) {
      var cs := ValidIsEncoded(s);
    }
    forall cs | EncodeAll(cs) == s
      ensures ValidUtf8(s)
    {
      EncodedIsValid(cs);
    }
  }
}
