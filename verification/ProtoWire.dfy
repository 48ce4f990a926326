/** The wire format of the Protocol Buffers Encoding document, as far as the eight messages use it:
    base-128 varints and length-delimited records, tagged with field numbers. */
module ProtoWire {
  import opened Bytes
  import opened Results

  const TWO_31: nat := 0x8000_0000
  const TWO_32: nat := 0x1_0000_0000
  const TWO_63: nat := 0x8000_0000_0000_0000
  const TWO_64: nat := 0x1_0000_0000_0000_0000

  // ---------- varints ----------

  function Varint(v: nat): (r: seq<byte>)
    ensures r != []
  {
    if v < 128 then [v] else [128 + v % 128] + Varint(v / 128)
  }

  /** At most max bytes are read. */
  function ReadVarint(b: seq<byte>, max: nat): (r: Option<Read<nat>>)
    ensures r.Some? ==> |r.value.rest| < |b|
    decreases max
  {
    if max == 0 || b == [] then None
    else if b[0] < 128 then Some(Read(b[0], b[1..]))
    else
      var r :- ReadVarint(b[1..], max - 1);
      Some(Read(b[0] - 128 + 128 * r.value, r.rest))
  }

  /** The number of base-128 digits. */
  function VarintSize(v: nat): nat {
    if v < 128 then 1 else 1 + VarintSize(v / 128)
  }

  function Pow128(n: nat): nat {
    if n == 0 then 1 else 128 * Pow128(n - 1)
  }

  lemma {:induction false} VarintRoundTrip(v: nat, max: nat, rest: seq<byte>)
    requires max > 0 && v < Pow128(max)
    ensures ReadVarint(Varint(v) + rest, max) == Some(Read(v, rest))
    decreases max
  {
    var b := Varint(v) + rest;
    if v < 128 {
      assert b[1..] == rest;
    } else {
      assert max > 1;
      assert b[1..] == Varint(v / 128) + rest;
      VarintRoundTrip(v / 128, max - 1, rest);
    }
  }

  lemma VarintFits(v: nat)
    ensures v < TWO_64 ==> v < Pow128(10)
    ensures v < TWO_32 ==> v < Pow128(5)
  {
    assert Pow128(3) == 0x20_0000;
    assert Pow128(5) == 0x8_0000_0000;
    assert Pow128(7) == 0x2_0000_0000_0000;
    assert Pow128(10) == 0x20_0000 * Pow128(7);
  }

  lemma {:induction false} VarintLength(v: nat)
    ensures |Varint(v)| == VarintSize(v)
  {
    if v >= 128 {
      VarintLength(v / 128);
    }
  }

  // ---------- integers of the schema ----------

  /** int64, int32 and enum values are written as 64-bit two's complement, so a negative one takes ten bytes. */
  function Unsigned64(v: int): nat
    requires -0x8000_0000_0000_0000 <= v < 0x8000_0000_0000_0000
  {
    if v < 0 then v + TWO_64 else v
  }

  function Signed64(u: nat): int {
    var w := u % TWO_64;
    if w < TWO_63 then w else w - TWO_64
  }

  function Signed32(u: nat): int {
    var w := u % TWO_32;
    if w < TWO_31 then w else w - TWO_32
  }

  predicate IsInt64(v: int) {
    -0x8000_0000_0000_0000 <= v < 0x8000_0000_0000_0000
  }

  predicate IsInt32(v: int) {
    -0x8000_0000 <= v < 0x8000_0000
  }

  lemma Int64RoundTrip(v: int)
    requires IsInt64(v)
    ensures Unsigned64(v) < TWO_64 && Signed64(Unsigned64(v)) == v
    ensures Unsigned64(v) == 0 <==> v == 0
  {
  }

  /** A value from 128^n up to 128^(n + 1) has n + 1 digits. */
  lemma {:induction false} SizeByMagnitude(v: nat, n: nat)
    requires Pow128(n) <= v < 128 * Pow128(n)
    ensures VarintSize(v) == n + 1
    decreases n
  {
    if n > 0 {
      SizeByMagnitude(v / 128, n - 1);
    }
  }

  /** A negative int64, and so a negative int32, takes ten bytes. */
  lemma NegativeTakesTenBytes(v: int)
    requires IsInt64(v) && v < 0
    ensures |Varint(Unsigned64(v))| == 10
  {
    var u := Unsigned64(v);
    VarintLength(u);
    assert Pow128(3) == 0x20_0000;
    assert Pow128(6) == 0x400_0000_0000;
    assert Pow128(9) == 0x8000_0000_0000_0000;
    SizeByMagnitude(u, 9);
  }

  lemma Int32RoundTrip(v: int)
    requires IsInt32(v)
    ensures Unsigned64(v) < TWO_64 && Signed32(Unsigned64(v)) == v
  {
    if v < 0 {
      assert Unsigned64(v) == (TWO_32 + v) + (TWO_32 - 1) * TWO_32;
    }
  }

  // ---------- UTF-8 ----------

  predicate Continues(s: seq<byte>, n: nat) {
    |s| > n && forall i :: 1 <= i <= n ==> 0x80 <= s[i] < 0xC0
  }

  /** The length of the well-formed code point at the front of s, 0 if there is none. */
  function CodePoint(s: seq<byte>): (n: nat)
    ensures n <= |s|
  {
    if s == [] then 0
    else if s[0] < 0x80 then 1
    else if 0xC2 <= s[0] < 0xE0 then if Continues(s, 1) then 2 else 0
    else if 0xE0 <= s[0] < 0xF0 then
      if Continues(s, 2) && !(s[0] == 0xE0 && s[1] < 0xA0) && !(s[0] == 0xED && s[1] >= 0xA0) then 3 else 0
    else if 0xF0 <= s[0] < 0xF5 then
      if Continues(s, 3) && !(s[0] == 0xF0 && s[1] < 0x90) && !(s[0] == 0xF4 && s[1] >= 0x90) then 4 else 0
    else 0
  }

  predicate Utf8(s: seq<byte>) {
    s == [] || (CodePoint(s) > 0 && Utf8(s[CodePoint(s)..]))
  }

  // ---------- fields ----------

  /** A field on the wire. len is the length prefix as written: the string's own length, or the cached
      size of a nested message. Skipped stands for the kinds that no message uses: fixed-width values and groups. */
  datatype Field =
    | VarintField(num: nat, value: nat)
    | LenField(num: nat, len: nat, payload: seq<byte>)
    | Skipped(num: nat)

  function EncodeField(f: Field): seq<byte> {
    match f
    case VarintField(num, v) => Varint(8 * num) + Varint(v)
    case LenField(num, len, payload) => Varint(8 * num + 2) + (Varint(len) + payload)
    case Skipped(_) => []
  }

  /** The fields that a message has, in the order of their numbers, each present or left out. */
  datatype Fields = End | Next(present: bool, field: Field, rest: Fields)

  function Encode(fs: Fields): seq<byte> {
    match fs
    case End => []
    case Next(present, f, rest) => (if present then EncodeField(f) else []) + Encode(rest)
  }

  /** One field: a tag of at most five bytes, then the value its wire type calls for. Field number 0, an
      end-group tag without its group and the two unused wire types fail. */
  function ReadField(b: seq<byte>): (r: Option<Read<Field>>)
    ensures r.Some? ==> |r.value.rest| < |b|
  {
    var tag :- ReadVarint(b, 5);
    var t := tag.value % TWO_32;
    ReadValue(t / 8, t % 8, tag.rest)
  }

  function ReadValue(num: nat, kind: nat, b: seq<byte>): (r: Option<Read<Field>>)
    ensures r.Some? ==> |r.value.rest| <= |b|
  {
    if num == 0 then None
    else if kind == 0 then
      var v :- ReadVarint(b, 10);
      Some(Read(VarintField(num, v.value % TWO_64), v.rest))
    else if kind == 1 then
      var v :- Take(b, 8);
      Some(Read(Skipped(num), v.rest))
    else if kind == 2 then
      var len :- ReadVarint(b, 5);
      if len.value >= TWO_31 then None
      else
        var v :- Take(len.rest, len.value);
        Some(Read(LenField(num, len.value, v.value), v.rest))
    else if kind == 3 then
      var rest :- SkipGroup(num, b);
      Some(Read(Skipped(num), rest))
    else if kind == 5 then
      var v :- Take(b, 4);
      Some(Read(Skipped(num), v.rest))
    else None
  }

  /** What follows the group with the given number: fields of any kind, groups among them, up to the
      end-group tag of the same number. */
  function SkipGroup(num: nat, b: seq<byte>): (r: Option<seq<byte>>)
    ensures r.Some? ==> |r.value| < |b|
    decreases |b|
  {
    var tag :- ReadVarint(b, 5);
    var t := tag.value % TWO_32;
    if t % 8 == 4 then if t / 8 == num then Some(tag.rest) else None
    else if t / 8 == 0 then None
    else
      var rest :- if t % 8 == 3 then SkipGroup(t / 8, tag.rest) else SkipValue(t % 8, tag.rest);
      SkipGroup(num, rest)
  }

  function SkipValue(kind: nat, b: seq<byte>): (r: Option<seq<byte>>)
    ensures r.Some? ==> |r.value| <= |b|
  {
    if kind == 0 then
      var v :- ReadVarint(b, 10);
      Some(v.rest)
    else if kind == 1 then
      var v :- Take(b, 8);
      Some(v.rest)
    else if kind == 2 then
      var len :- ReadVarint(b, 5);
      if len.value >= TWO_31 then None
      else
        var v :- Take(len.rest, len.value);
        Some(v.rest)
    else if kind == 5 then
      var v :- Take(b, 4);
      Some(v.rest)
    else None
  }

  /** A field as this schema writes it: a one-byte tag and a length prefix that is the payload's length. */
  predicate Proper(f: Field) {
    && 1 <= f.num <= 15
    && match f
       case VarintField(_, v) => v < TWO_64
       case LenField(_, len, payload) => len == |payload| < TWO_31
       case Skipped(_) => false
  }

  lemma SmallModulo(v: nat, m: nat)
    requires v < m
    ensures v % m == v
  {
  }

  lemma TagParts(num: nat, kind: nat)
    requires num <= 15 && kind < 8
    ensures var tag := (8 * num + kind) % TWO_32; tag / 8 == num && tag % 8 == kind
  {
    SmallModulo(8 * num + kind, TWO_32);
  }

  lemma TagRoundTrip(num: nat, kind: nat, value: seq<byte>)
    requires 1 <= num <= 15 && kind < 8
    ensures ReadField(Varint(8 * num + kind) + value) == ReadValue(num, kind, value)
  {
    var tag := 8 * num + kind;
    VarintFits(tag);
    VarintRoundTrip(tag, 5, value);
    ReadFieldOf(Varint(tag) + value, tag, num, kind, value);
  }

  lemma ReadFieldOf(b: seq<byte>, tag: nat, num: nat, kind: nat, value: seq<byte>)
    requires 1 <= num <= 15 && kind < 8 && tag == 8 * num + kind
    requires ReadVarint(b, 5) == Some(Read(tag, value))
    ensures ReadField(b) == ReadValue(num, kind, value)
  {
    TagParts(num, kind);
  }

  lemma ReadVarintValue(num: nat, v: nat, rest: seq<byte>)
    requires num > 0 && v < TWO_64
    ensures ReadValue(num, 0, Varint(v) + rest) == Some(Read(VarintField(num, v), rest))
  {
    assert ReadVarint(Varint(v) + rest, 10) == Some(Read(v, rest)) by {
      VarintFits(v);
      VarintRoundTrip(v, 10, rest);
    }
    SmallModulo(v, TWO_64);
  }

  lemma ReadLenValue(num: nat, payload: seq<byte>, rest: seq<byte>)
    requires num > 0 && |payload| < TWO_31
    ensures ReadValue(num, 2, Varint(|payload|) + (payload + rest)) ==
            Some(Read(LenField(num, |payload|, payload), rest))
  {
    VarintFits(|payload|);
    VarintRoundTrip(|payload|, 5, payload + rest);
    TakeFront(payload, rest);
  }

  lemma VarintFieldRoundTrip(num: nat, v: nat, rest: seq<byte>)
    requires 1 <= num <= 15 && v < TWO_64
    ensures ReadField(EncodeField(VarintField(num, v)) + rest) == Some(Read(VarintField(num, v), rest))
  {
    var tag := Varint(8 * num + 0);
    assert EncodeField(VarintField(num, v)) + rest == tag + (Varint(v) + rest);
    TagRoundTrip(num, 0, Varint(v) + rest);
    ReadVarintValue(num, v, rest);
  }

  lemma LenFieldRoundTrip(num: nat, payload: seq<byte>, rest: seq<byte>)
    requires 1 <= num <= 15 && |payload| < TWO_31
    ensures
      var f := LenField(num, |payload|, payload);
      ReadField(EncodeField(f) + rest) == Some(Read(f, rest))
  {
    var value := Varint(|payload|) + (payload + rest);
    assert EncodeField(LenField(num, |payload|, payload)) + rest == Varint(8 * num + 2) + value;
    TagRoundTrip(num, 2, value);
    ReadLenValue(num, payload, rest);
  }

  /** A length of 2 GiB or more is refused, whatever follows. */
  lemma LongFieldFails(num: nat, len: nat, rest: seq<byte>)
    requires 1 <= num <= 15 && TWO_31 <= len < Pow128(5)
    ensures ReadField(Varint(8 * num + 2) + (Varint(len) + rest)) == None
  {
    TagRoundTrip(num, 2, Varint(len) + rest);
    VarintRoundTrip(len, 5, rest);
  }

  lemma FieldRoundTrip(f: Field, rest: seq<byte>)
    requires Proper(f)
    ensures ReadField(EncodeField(f) + rest) == Some(Read(f, rest))
  {
    if f.VarintField? {
      VarintFieldRoundTrip(f.num, f.value, rest);
    } else {
      LenFieldRoundTrip(f.num, f.payload, rest);
    }
  }

  // ---------- the shape of the generated parsers ----------

  /** A parser's loop: read a field, let the message's switch take it in, go on to the end of the data. */
  function Parse<M>(apply: (M, Field) -> Option<M>, b: seq<byte>, m: M): Option<M>
    decreases |b|
  {
    if b == [] then Some(m)
    else
      var f :- ReadField(b);
      var m' :- apply(m, f.value);
      Parse(apply, f.rest, m')
  }

  /** The same as a loop that advances over the data and updates the message. */
  method ParseLoop<M>(apply: (M, Field) -> Option<M>, data: seq<byte>, init: M) returns (r: Option<M>)
    ensures r == Parse(apply, data, init)
  {
    var rest, m := data, init;
    while rest != []
      invariant Parse(apply, data, init) == Parse(apply, rest, m)
      decreases |rest|
    {
      var f := ReadField(rest);
      if f == None {
        return None;
      }
      var next := apply(m, f.value.value);
      if next == None {
        return None;
      }
      rest, m := f.value.rest, next.value;
    }
    r := Some(m);
  }

  function ApplyAll<M>(apply: (M, Field) -> Option<M>, fs: Fields, m: M): Option<M> {
    match fs
    case End => Some(m)
    case Next(present, f, rest) =>
      if present then
        var m' :- apply(m, f);
        ApplyAll(apply, rest, m')
      else ApplyAll(apply, rest, m)
  }

  predicate AllProper(fs: Fields) {
    fs.Next? ==> (fs.present ==> Proper(fs.field)) && AllProper(fs.rest)
  }

  /** Parsing encoded fields applies them in order and then goes on with what follows. */
  lemma {:induction false} ParseEncoded<M>(apply: (M, Field) -> Option<M>, fs: Fields, rest: seq<byte>, m: M)
    requires AllProper(fs)
    ensures Parse(apply, Encode(fs) + rest, m) ==
            match ApplyAll(apply, fs, m) case None => None case Some(m') => Parse(apply, rest, m')
    decreases fs
  {
    if fs.End? {
      assert Encode(fs) + rest == rest;
    } else {
      var tail := Encode(fs.rest) + rest;
      if fs.present {
        assert Encode(fs) + rest == EncodeField(fs.field) + tail;
        FieldRoundTrip(fs.field, tail);
        assert EncodeField(fs.field) + tail != [];
        match apply(m, fs.field)
        case None =>
        case Some(m') => ParseEncoded(apply, fs.rest, rest, m');
      } else {
        assert Encode(fs) + rest == tail;
        ParseEncoded(apply, fs.rest, rest, m);
      }
    }
  }

  /** A repeated field: every element is present. */
  function AllOf(fs: seq<Field>, rest: Fields): Fields {
    if fs == [] then rest else Next(true, fs[0], AllOf(fs[1..], rest))
  }

  lemma {:induction false} ProperAllOf(fs: seq<Field>, rest: Fields)
    requires AllProper(rest) && forall i :: 0 <= i < |fs| ==> Proper(fs[i])
    ensures AllProper(AllOf(fs, rest))
    decreases |fs|
  {
    if fs != [] {
      ProperAllOf(fs[1..], rest);
    }
  }

  /** One field of a message whose value is default exactly when the field is left out. */
  lemma ApplyNext<M>(apply: (M, Field) -> Option<M>, fs: Fields, m: M, m': M)
    requires fs.Next?
    requires if fs.present then apply(m, fs.field) == Some(m') else m' == m
    ensures ApplyAll(apply, fs, m) == ApplyAll(apply, fs.rest, m')
  {
  }

  /** The same for a field that the parser checks for UTF-8. */
  lemma ApplyText<M>(apply: (M, Field) -> Option<M>, fs: Fields, m: M, m': M, text: bool)
    requires fs.Next?
    requires if fs.present then apply(m, fs.field) == (if text then Some(m') else None) else text && m' == m
    ensures ApplyAll(apply, fs, m) == if text then ApplyAll(apply, fs.rest, m') else None
  {
  }

  /** A field of the given size behind its one-byte tag, or nothing. */
  function Sized(present: bool, size: nat): nat {
    if present then 1 + size else 0
  }

  function StringSize(s: seq<byte>): nat {
    VarintSize(|s|) + |s|
  }

  lemma LengthOfLen(num: nat, len: nat, payload: seq<byte>)
    requires 1 <= num <= 15
    ensures |EncodeField(LenField(num, len, payload))| == 1 + VarintSize(len) + |payload|
  {
    VarintLength(8 * num + 2);
    VarintLength(len);
  }

  lemma LengthOfVarint(num: nat, v: nat)
    requires 1 <= num <= 15 && v < TWO_64
    ensures |EncodeField(VarintField(num, v))| == 1 + VarintSize(v)
  {
    VarintLength(8 * num);
    VarintLength(v);
  }
}
