/** UTF-8 (section 4 of RFC 3629): well-formed byte strings, and what they are the encodings of. */
module Utf8Text {
  import opened CacheTypes

  // ---------------------------------------------------------------------
  // Well-formed byte strings
  // ---------------------------------------------------------------------

  predicate Tail(b: int) { 0x80 <= b <= 0xBF }

  predicate TwoByte(s: seq<Byte>) { |s| >= 2 && 0xC2 <= s[0] <= 0xDF && Tail(s[1]) }

  predicate ThreeByte(s: seq<Byte>) {
    && |s| >= 3 && Tail(s[2])
    && (if s[0] == 0xE0 then 0xA0 <= s[1] <= 0xBF
        else if s[0] == 0xED then 0x80 <= s[1] <= 0x9F
        else 0xE1 <= s[0] <= 0xEF && Tail(s[1]))
  }

  predicate FourByte(s: seq<Byte>) {
    && |s| >= 4 && Tail(s[2]) && Tail(s[3])
    && (if s[0] == 0xF0 then 0x90 <= s[1] <= 0xBF
        else if s[0] == 0xF4 then 0x80 <= s[1] <= 0x8F
        else 0xF1 <= s[0] <= 0xF3 && Tail(s[1]))
  }

  predicate Utf8(s: seq<Byte>) {
    if s == [] then true
    else if s[0] <= 0x7F then Utf8(s[1..])
    else if TwoByte(s) then Utf8(s[2..])
    else if ThreeByte(s) then Utf8(s[3..])
    else if FourByte(s) then Utf8(s[4..])
    else false
  }

  // ---------------------------------------------------------------------
  // Encoded scalar values
  // ---------------------------------------------------------------------

  /** A Unicode scalar value: any code point but the surrogates. */
  type Scalar = c: int | 0 <= c < 0xD800 || 0xE000 <= c <= 0x10FFFF

  function EncodeOne(c: Scalar): (b: seq<Byte>)
    ensures b != []
  {
    if c < 0x80 then [c]
    else if c < 0x800 then [0xC0 + c / 0x40, 0x80 + c % 0x40]
    else if c < 0x1_0000 then [0xE0 + c / 0x1000, 0x80 + c / 0x40 % 0x40, 0x80 + c % 0x40]
    else [0xF0 + c / 0x4_0000, 0x80 + c / 0x1000 % 0x40, 0x80 + c / 0x40 % 0x40, 0x80 + c % 0x40]
  }

  function Encode(cs: seq<Scalar>): seq<Byte> {
    if cs == [] then [] else EncodeOne(cs[0]) + Encode(cs[1..])
  }

  lemma OneIsWellFormed(c: Scalar, rest: seq<Byte>)
    ensures Utf8(EncodeOne(c) + rest) <==> Utf8(rest)
  {
    var s := EncodeOne(c) + rest;
    assert s[|EncodeOne(c)|..] == rest;
    if c >= 0x80 { assert s[0] == EncodeOne(c)[0] && s[1] == EncodeOne(c)[1]; }
    if c >= 0x800 { assert s[2] == EncodeOne(c)[2]; }
    if c >= 0x1_0000 { assert s[3] == EncodeOne(c)[3]; }
  }

  lemma {:induction false} EncodedIsWellFormed(cs: seq<Scalar>)
    ensures Utf8(Encode(cs))
  {
    if cs != [] {
      EncodedIsWellFormed(cs[1..]);
      OneIsWellFormed(cs[0], Encode(cs[1..]));
    }
  }

  lemma Six(q: nat, r: nat)
    requires r < 0x40
    ensures (q * 0x40 + r) / 0x40 == q && (q * 0x40 + r) % 0x40 == r
  {
  }

  lemma TwoScalar(x: int, y: int) returns (c: Scalar)
    requires 0xC2 <= x <= 0xDF && Tail(y)
    ensures EncodeOne(c) == [x, y]
  {
    c := (x - 0xC0) * 0x40 + (y - 0x80);
    Six(x - 0xC0, y - 0x80);
  }

  lemma ThreeScalar(x: int, y: int, z: int) returns (c: Scalar)
    requires 0xE0 <= x <= 0xEF && Tail(y) && Tail(z) && (x == 0xE0 ==> 0xA0 <= y) && (x == 0xED ==> y <= 0x9F)
    ensures EncodeOne(c) == [x, y, z]
  {
    var high := (x - 0xE0) * 0x40 + (y - 0x80);
    c := high * 0x40 + (z - 0x80);
    Six(high, z - 0x80);
    Six(x - 0xE0, y - 0x80);
    assert c / 0x1000 == c / 0x40 / 0x40;
  }

  lemma FourScalar(x: int, y: int, z: int, w: int) returns (c: Scalar)
    requires 0xF0 <= x <= 0xF4 && Tail(y) && Tail(z) && Tail(w) && (x == 0xF0 ==> 0x90 <= y) && (x == 0xF4 ==> y <= 0x8F)
    ensures EncodeOne(c) == [x, y, z, w]
  {
    var top := (x - 0xF0) * 0x40 + (y - 0x80);
    var high := top * 0x40 + (z - 0x80);
    c := high * 0x40 + (w - 0x80);
    Six(high, w - 0x80);
    Six(top, z - 0x80);
    Six(x - 0xF0, y - 0x80);
    assert c / 0x1000 == c / 0x40 / 0x40 && c / 0x4_0000 == c / 0x40 / 0x40 / 0x40;
  }

  lemma FirstScalar(s: seq<Byte>) returns (c: Scalar)
    requires s != [] && Utf8(s)
    ensures EncodeOne(c) <= s && Utf8(s[|EncodeOne(c)|..])
  {
    if s[0] <= 0x7F {
      c := s[0];
    } else if TwoByte(s) {
      c := TwoScalar(s[0], s[1]);
      assert s[..2] == [s[0], s[1]];
    } else if ThreeByte(s) {
      c := ThreeScalar(s[0], s[1], s[2]);
      assert s[..3] == [s[0], s[1], s[2]];
    } else {
      c := FourScalar(s[0], s[1], s[2], s[3]);
      assert s[..4] == [s[0], s[1], s[2], s[3]];
    }
  }

  lemma {:induction false} WellFormedIsEncoded(s: seq<Byte>) returns (cs: seq<Scalar>)
    requires Utf8(s)
    ensures Encode(cs) == s
    decreases |s|
  {
    if s == [] {
      cs := [];
    } else {
      var c := FirstScalar(s);
      var rest := WellFormedIsEncoded(s[|EncodeOne(c)|..]);
      cs := [c] + rest;
      assert cs[1..] == rest;
      assert s == EncodeOne(c) + s[|EncodeOne(c)|..];
    }
  }

  /** A byte string is well-formed if and only if it encodes some sequence of scalar values. */
  lemma Utf8Exactly(s: seq<Byte>)
    ensures Utf8(s) <==> exists cs :: Encode(cs) == s
  {
    if Utf8(s) {
      var cs := WellFormedIsEncoded(s);
    }
    if cs :| Encode(cs) == s {
      EncodedIsWellFormed(cs);
    }
  }
}
