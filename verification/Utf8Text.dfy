/** What the parsers' check of strings means: a string passes it if and only if it is the UTF-8 encoding, by
    section 3 of RFC 3629, of some sequence of Unicode scalar values. */
module Utf8Text {
  import opened Bytes
  import opened ProtoWire

  /** The code points up to 0x10FFFF, the surrogates left out. */
  predicate Scalar(c: int) {
    0 <= c < 0xD800 || 0xE000 <= c < 0x11_0000
  }

  function EncodePoint(c: int): (s: seq<byte>)
    requires Scalar(c)
  {
    if c < 0x80 then [c]
    else if c < 0x800 then [0xC0 + c / 64, 0x80 + c % 64]
    else if c < 0x1_0000 then [0xE0 + c / 4096, 0x80 + c / 64 % 64, 0x80 + c % 64]
    else [0xF0 + c / 262_144, 0x80 + c / 4096 % 64, 0x80 + c / 64 % 64, 0x80 + c % 64]
  }

  predicate Scalars(cs: seq<int>) {
    forall i :: 0 <= i < |cs| ==> Scalar(cs[i])
  }

  function EncodePoints(cs: seq<int>): seq<byte>
    requires Scalars(cs)
  {
    if cs == [] then [] else EncodePoint(cs[0]) + EncodePoints(cs[1..])
  }

  lemma EncodedIsPoint(c: int, rest: seq<byte>)
    requires Scalar(c)
    ensures CodePoint(EncodePoint(c) + rest) == |EncodePoint(c)|
  {
  }

  lemma PointIsEncoded(s: seq<byte>) returns (c: int)
    requires CodePoint(s) > 0
    ensures Scalar(c) && s[..CodePoint(s)] == EncodePoint(c)
  {
    match CodePoint(s)
    case 1 => c := s[0];
    case 2 => c := (s[0] as int - 0xC0) * 64 + (s[1] as int - 0x80);
    case 3 => c := ThreeBytes(s);
    case _ => c := FourBytes(s);
  }

  lemma ThreeBytes(s: seq<byte>) returns (c: int)
    requires CodePoint(s) == 3
    ensures Scalar(c) && s[..3] == EncodePoint(c)
  {
    c := (s[0] as int - 0xE0) * 4096 + (s[1] as int - 0x80) * 64 + (s[2] as int - 0x80);
    assert c / 64 == (s[0] as int - 0xE0) * 64 + (s[1] as int - 0x80);
  }

  lemma FourBytes(s: seq<byte>) returns (c: int)
    requires CodePoint(s) > 3
    ensures Scalar(c) && s[..CodePoint(s)] == EncodePoint(c)
  {
    var high := (s[0] as int - 0xF0) * 262_144 + (s[1] as int - 0x80) * 4096;
    c := high + (s[2] as int - 0x80) * 64 + (s[3] as int - 0x80);
    assert c / 64 == (s[0] as int - 0xF0) * 4096 + (s[1] as int - 0x80) * 64 + (s[2] as int - 0x80);
    assert c / 4096 == (s[0] as int - 0xF0) * 64 + (s[1] as int - 0x80);
  }

  lemma {:induction false} EncodedIsUtf8(cs: seq<int>)
    requires Scalars(cs)
    ensures Utf8(EncodePoints(cs))
    decreases |cs|
  {
    if cs != [] {
      var first, rest := EncodePoint(cs[0]), EncodePoints(cs[1..]);
      EncodedIsPoint(cs[0], rest);
      EncodedIsUtf8(cs[1..]);
      assert (first + rest)[|first|..] == rest;
    }
  }

  lemma {:induction false} Utf8IsEncoded(s: seq<byte>) returns (cs: seq<int>)
    requires Utf8(s)
    ensures Scalars(cs) && EncodePoints(cs) == s
    decreases |s|
  {
    if s == [] {
      cs := [];
    } else {
      var n := CodePoint(s);
      var c := PointIsEncoded(s);
      var rest := Utf8IsEncoded(s[n..]);
      cs := [c] + rest;
      assert cs[1..] == rest && s == s[..n] + s[n..];
    }
  }

  lemma Utf8Iff(s: seq<byte>)
    ensures Utf8(s) <==> exists cs :: Scalars(cs) && EncodePoints(cs) == s
  {
    if Utf8(s) {
      var cs := Utf8IsEncoded(s);
    }
    if cs :| Scalars(cs) && EncodePoints(cs) == s {
      EncodedIsUtf8(cs);
    }
  }
}
