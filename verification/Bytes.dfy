/** Bytes, paths and the fixed-width host integers that cross the socket.
    The widths are those of 64-bit Linux: int and mode_t take 4 bytes, size_t and off_t take 8,
    least significant byte first. */
module Bytes {
  import opened Results

  type byte = x: int | 0 <= x < 256

  type Path = seq<byte>

  const SLASH: byte := 47
  const NUL: byte := 0
  const NEWLINE: byte := 10

  function Min(a: int, b: int): int {
    if a < b then a else b
  }

  /** Reads a string literal as the bytes that a C++ literal holds. */
  function Text(s: string): (r: seq<byte>)
    requires forall i :: 0 <= i < |s| ==> 0 <= s[i] as int < 256
    ensures |r| == |s|
    ensures forall i :: 0 <= i < |s| ==> r[i] == s[i] as int
  {
    seq(|s|, i requires 0 <= i < |s| => s[i] as int)
  }

  function Zeros(n: nat): (r: seq<byte>)
    ensures |r| == n && forall i :: 0 <= i < n ==> r[i] == 0
  {
    seq(n, i => 0)
  }

  function Pow256(w: nat): (r: nat)
    ensures r > 0
  {
    if w == 0 then 1 else 256 * Pow256(w - 1)
  }

  /** The w low-order base-256 digits of n, least significant first. */
  function LeBytes(n: nat, w: nat): (r: seq<byte>)
    ensures |r| == w
    decreases w
  {
    if w == 0 then [] else [n % 256] + LeBytes(n / 256, w - 1)
  }

  function LeValue(s: seq<byte>): nat {
    if s == [] then 0 else s[0] + 256 * LeValue(s[1..])
  }

  lemma {:induction false} LeRoundTrip(n: nat, w: nat)
    requires n < Pow256(w)
    ensures LeValue(LeBytes(n, w)) == n
    decreases w
  {
    if w > 0 {
      LeRoundTrip(n / 256, w - 1);
      assert LeBytes(n, w)[1..] == LeBytes(n / 256, w - 1);
    }
  }

  predicate Fits(v: int, w: nat) {
    0 <= 2 * v + Pow256(w) && 2 * v < Pow256(w)
  }

  /** Two's complement at width w. */
  function ToUnsigned(v: int, w: nat): nat
    requires Fits(v, w)
  {
    if v < 0 then v + Pow256(w) else v
  }

  function ToSigned(u: nat, w: nat): int
  {
    if 2 * u < Pow256(w) then u else u - Pow256(w)
  }

  function EncodeSigned(v: int, w: nat): (r: seq<byte>)
    requires Fits(v, w)
    ensures |r| == w
  {
    LeBytes(ToUnsigned(v, w), w)
  }

  function DecodeSigned(s: seq<byte>): int {
    ToSigned(LeValue(s), |s|)
  }

  lemma SignedRoundTrip(v: int, w: nat)
    requires Fits(v, w)
    ensures DecodeSigned(EncodeSigned(v, w)) == v
  {
    LeRoundTrip(ToUnsigned(v, w), w);
  }

  /** What a C++ narrowing conversion to a 32-bit int does. */
  function WrapInt32(v: int): (r: int)
    ensures -0x8000_0000 <= r < 0x8000_0000
    ensures -0x8000_0000 <= v < 0x8000_0000 ==> r == v
  {
    (v + 0x8000_0000) % 0x1_0000_0000 - 0x8000_0000
  }

  lemma Widths()
    ensures Pow256(4) == 0x1_0000_0000
    ensures Pow256(8) == 0x1_0000_0000_0000_0000
  {
    assert Pow256(2) == 65536;
    assert Pow256(4) == 65536 * 65536;
    assert Pow256(6) == 0x1_0000_0000_0000;
  }

  /** A value read off the front of a byte stream, and the bytes that follow it. */
  datatype Read<+T> = Read(value: T, rest: seq<byte>)

  function Take(b: seq<byte>, n: nat): Option<Read<seq<byte>>> {
    if |b| < n then None else Some(Read(b[..n], b[n..]))
  }

  lemma TakeFront(a: seq<byte>, rest: seq<byte>)
    ensures Take(a + rest, |a|) == Some(Read(a, rest))
  {
    assert (a + rest)[..|a|] == a && (a + rest)[|a|..] == rest;
  }
}
