/** The strings a file may hold are exactly the encodings of Unicode scalar values (section 3 of RFC 3629). */
module Utf8 {
  import opened Bytes

  /** A code point that is no surrogate. */
  type Scalar = c: int | 0 <= c < 0xD800 || 0xE000 <= c < 0x11_0000

  function Encode(c: Scalar): (s: seq<byte>)
    ensures 1 <= |s| <= 4
  {
    if c < 0x80 then [c]
    else if c < 0x800 then [0xC0 + c / 64, 0x80 + c % 64]
    else if c < 0x1_0000 then [0xE0 + c / 4096, 0x80 + c / 64 % 64, 0x80 + c % 64]
    else [0xF0 + c / 262144, 0x80 + c / 4096 % 64, 0x80 + c / 64 % 64, 0x80 + c % 64]
  }

  function EncodeAll(cs: seq<Scalar>): seq<byte> {
    if cs == [] then [] else Encode(cs[0]) + EncodeAll(cs[1..])
  }

  lemma {:induction false} Digits(q: int, r: int)
    requires 0 <= q && 0 <= r < 64
    ensures (q * 64 + r) / 64 == q && (q * 64 + r) % 64 == r
  {
  }

  lemma {:induction false} Nested(c: nat)
    ensures c / 4096 == c / 64 / 64 && c / 262144 == c / 4096 / 64
  {
  }

  lemma {:induction false} TwoDecode(x: byte, y: byte) returns (c: Scalar)
    requires 0xC2 <= x < 0xE0 && Continues(y)
    ensures Encode(c) == [x, y]
  {
    c := (x as int - 0xC0) * 64 + (y as int - 0x80);
    Digits(x as int - 0xC0, y as int - 0x80);
  }

  lemma {:induction false} ThreeDecode(x: byte, y: byte, z: byte) returns (c: Scalar)
    requires 0xE0 <= x < 0xF0 && Continues(y) && Continues(z) && (x == 0xE0 ==> y >= 0xA0) && (x == 0xED ==> y < 0xA0)
    ensures Encode(c) == [x, y, z]
  {
    var q := (x as int - 0xE0) * 64 + (y as int - 0x80);
    c := q * 64 + (z as int - 0x80);
    Digits(x as int - 0xE0, y as int - 0x80);
    Digits(q, z as int - 0x80);
    Nested(c);
  }

  lemma {:induction false} FourDecode(x: byte, y: byte, z: byte, w: byte) returns (c: Scalar)
    requires 0xF0 <= x < 0xF5 && Continues(y) && Continues(z) && Continues(w)
    requires (x == 0xF0 ==> y >= 0x90) && (x == 0xF4 ==> y < 0x90)
    ensures Encode(c) == [x, y, z, w]
  {
    var p := (x as int - 0xF0) * 64 + (y as int - 0x80);
    var q := p * 64 + (z as int - 0x80);
    c := q * 64 + (w as int - 0x80);
    Digits(x as int - 0xF0, y as int - 0x80);
    Digits(p, z as int - 0x80);
    Digits(q, w as int - 0x80);
    Nested(c);
  }

  /** The front of an accepted string is a character. */
  lemma {:induction false} FrontDecodes(s: seq<byte>) returns (c: Scalar)
    requires CharLength(s) > 0
    ensures s == Encode(c) + s[CharLength(s)..]
  {
    hide Encode;
    var n := CharLength(s);
    assert s == s[..n] + s[n..];
    if n == 1 {
      c := s[0];
      assert s[..1] == [s[0]] == Encode(c) by { OneDecode(s[0]); }
    } else if n == 2 {
      c := TwoDecode(s[0], s[1]);
      assert s[..2] == [s[0], s[1]];
    } else if n == 3 {
      c := ThreeDecode(s[0], s[1], s[2]);
      assert s[..3] == [s[0], s[1], s[2]];
    } else {
      c := FourDecode(s[0], s[1], s[2], s[3]);
      assert s[..4] == [s[0], s[1], s[2], s[3]];
    }
  }

  lemma {:induction false} OneDecode(x: byte)
    requires x < 0x80
    ensures Encode(x) == [x]
  {
  }

  /** A character is accepted, whatever follows it. */
  lemma {:induction false} FrontAccepted(c: Scalar, rest: seq<byte>)
    ensures CharLength(Encode(c) + rest) == |Encode(c)|
  {
  }

  /** Every accepted string is made of characters ... */
  lemma {:induction false} AcceptedDecodes(s: seq<byte>) returns (cs: seq<Scalar>)
    requires ValidUtf8(s)
    ensures s == EncodeAll(cs)
    decreases |s|
  {
    hide CharLength, Encode;
    if s == [] {
      cs := [];
    } else {
      var c := FrontDecodes(s);
      var rest := AcceptedDecodes(s[CharLength(s)..]);
      cs := [c] + rest;
      assert cs[1..] == rest;
    }
  }

  /** ... and every string of characters is accepted. */
  lemma {:induction false} EncodedAccepted(cs: seq<Scalar>)
    ensures ValidUtf8(EncodeAll(cs))
  {
    hide CharLength, Encode;
    if cs != [] {
      EncodedAccepted(cs[1..]);
      FrontAccepted(cs[0], EncodeAll(cs[1..]));
      var s := EncodeAll(cs);
      assert s[|Encode(cs[0])|..] == EncodeAll(cs[1..]);
    }
  }
}
