/** Fields that a message does not know, as a later version of the schema may send them: any number, any wire
    type, groups nested in groups. The parsers skip them. */
module UnknownFields {
  import opened Bytes
  import opened Results
  import opened ProtoWire
  import opened ProtoMessages
  import opened ProtoRpc

  datatype Unknown =
    | Number(num: nat, value: nat)
    | Fixed64(num: nat, data: seq<byte>)
    | Bytes(num: nat, data: seq<byte>)
    | Group(num: nat, inside: Unknowns)
    | Fixed32(num: nat, data: seq<byte>)

  datatype Unknowns = NoMore | More(first: Unknown, rest: Unknowns)

  /** Field numbers take 29 bits. */
  predicate Written(u: Unknown) {
    && 1 <= u.num < 0x2000_0000
    && match u
       case Number(_, v) => v < TWO_64
       case Fixed64(_, data) => |data| == 8
       case Bytes(_, data) => |data| < TWO_31
       case Group(_, inside) => AllWritten(inside)
       case Fixed32(_, data) => |data| == 4
  }

  predicate AllWritten(us: Unknowns) {
    us.More? ==> Written(us.first) && AllWritten(us.rest)
  }

  function Tag(num: nat, kind: nat): seq<byte> {
    Varint(8 * num + kind)
  }

  function EncodeUnknown(u: Unknown): seq<byte> {
    match u
    case Number(num, v) => Tag(num, 0) + Varint(v)
    case Fixed64(num, data) => Tag(num, 1) + data
    case Bytes(num, data) => Tag(num, 2) + (Varint(|data|) + data)
    case Group(num, inside) => Tag(num, 3) + (EncodeAll(inside) + Tag(num, 4))
    case Fixed32(num, data) => Tag(num, 5) + data
  }

  function EncodeAll(us: Unknowns): seq<byte> {
    match us
    case NoMore => []
    case More(first, rest) => EncodeUnknown(first) + EncodeAll(rest)
  }

  /** What the parser's switch sees of it. */
  function AsField(u: Unknown): Field {
    match u
    case Number(num, v) => VarintField(num, v)
    case Bytes(num, data) => LenField(num, |data|, data)
    case _ => Skipped(u.num)
  }

  lemma TagReads(num: nat, kind: nat, rest: seq<byte>)
    requires num < 0x2000_0000 && kind < 8
    ensures ReadVarint(Tag(num, kind) + rest, 5) == Some(Read(8 * num + kind, rest))
    ensures (8 * num + kind) % TWO_32 == 8 * num + kind
    ensures (8 * num + kind) / 8 == num && (8 * num + kind) % 8 == kind
  {
    VarintFits(8 * num + kind);
    VarintRoundTrip(8 * num + kind, 5, rest);
  }

  lemma ValueReads(num: nat, v: nat, rest: seq<byte>)
    requires v < TWO_64
    ensures ReadVarint(Varint(v) + rest, 10) == Some(Read(v, rest))
  {
    VarintFits(v);
    VarintRoundTrip(v, 10, rest);
  }

  lemma BytesRead(data: seq<byte>, rest: seq<byte>)
    requires |data| < TWO_31
    ensures ReadVarint(Varint(|data|) + (data + rest), 5) == Some(Read(|data|, data + rest))
    ensures Take(data + rest, |data|) == Some(Read(data, rest))
  {
    VarintFits(|data|);
    VarintRoundTrip(|data|, 5, data + rest);
    TakeFront(data, rest);
  }

  /** What stands behind the tag. */
  function Body(u: Unknown): seq<byte> {
    match u
    case Number(_, v) => Varint(v)
    case Fixed64(_, data) => data
    case Bytes(_, data) => Varint(|data|) + data
    case Group(num, inside) => EncodeAll(inside) + Tag(num, 4)
    case Fixed32(_, data) => data
  }

  function Kind(u: Unknown): nat {
    match u
    case Number(_, _) => 0
    case Fixed64(_, _) => 1
    case Bytes(_, _) => 2
    case Group(_, _) => 3
    case Fixed32(_, _) => 5
  }

  lemma TagThenBody(u: Unknown, rest: seq<byte>)
    ensures EncodeUnknown(u) + rest == Tag(u.num, Kind(u)) + (Body(u) + rest)
  {
  }

  /** Inside a group a field is skipped as a whole. */
  lemma SkipsBody(u: Unknown, rest: seq<byte>)
    requires Written(u) && !u.Group?
    ensures SkipValue(Kind(u), Body(u) + rest) == Some(rest)
  {
    match u
    case Number(num, v) => ValueReads(num, v, rest);
    case Fixed64(_, data) => TakeFront(data, rest);
    case Bytes(_, data) =>
      BytesRead(data, rest);
      assert Body(u) + rest == Varint(|data|) + (data + rest);
    case Fixed32(_, data) => TakeFront(data, rest);
  }

  lemma GroupEnds(num: nat, rest: seq<byte>)
    requires 1 <= num < 0x2000_0000
    ensures SkipGroup(num, Tag(num, 4) + rest) == Some(rest)
  {
    TagReads(num, 4, rest);
  }

  /** Inside a group: a field's tag, and what is skipped behind it. */
  lemma GroupGoesOn(group: nat, num: nat, kind: nat, body: seq<byte>, behind: seq<byte>)
    requires 1 <= num < 0x2000_0000 && kind < 8 && kind != 4
    requires (if kind == 3 then SkipGroup(num, body) else SkipValue(kind, body)) == Some(behind)
    ensures SkipGroup(group, Tag(num, kind) + body) == SkipGroup(group, behind)
  {
    TagReads(num, kind, body);
    GroupUnfolds(group, Tag(num, kind) + body, 8 * num + kind, num, kind, body, behind);
  }

  lemma GroupUnfolds(group: nat, b: seq<byte>, tag: nat, num: nat, kind: nat, body: seq<byte>, behind: seq<byte>)
    requires num > 0 && kind != 4 && tag % TWO_32 == tag && tag / 8 == num && tag % 8 == kind
    requires ReadVarint(b, 5) == Some(Read(tag, body))
    requires (if kind == 3 then SkipGroup(num, body) else SkipValue(kind, body)) == Some(behind)
    ensures SkipGroup(group, b) == SkipGroup(group, behind)
  {
  }

  lemma FirstThenOthers(us: Unknowns, tail: seq<byte>)
    requires us.More?
    ensures EncodeAll(us) + tail == EncodeUnknown(us.first) + (EncodeAll(us.rest) + tail)
  {
  }

  /** A group is skipped up to its own end, whatever is in it. */
  lemma {:induction false} SkipsGroup(num: nat, us: Unknowns, rest: seq<byte>)
    requires 1 <= num < 0x2000_0000 && AllWritten(us)
    ensures SkipGroup(num, EncodeAll(us) + (Tag(num, 4) + rest)) == Some(rest)
    decreases us
  {
    var tail := Tag(num, 4) + rest;
    match us
    case NoMore =>
      assert EncodeAll(us) + tail == tail;
      GroupEnds(num, rest);
    case More(u, others) =>
      FirstThenOthers(us, tail);
      SkipsGroup(num, others, rest);
      var body := BodySkipped(u, EncodeAll(others) + tail);
      FirstSkipped(num, u, body, EncodeAll(others) + tail);
  }

  lemma {:induction false} BodySkipped(u: Unknown, behind: seq<byte>) returns (body: seq<byte>)
    requires Written(u)
    ensures body == Body(u) + behind
    ensures (if Kind(u) == 3 then SkipGroup(u.num, body) else SkipValue(Kind(u), body)) == Some(behind)
    decreases u
  {
    body := Body(u) + behind;
    if u.Group? {
      GroupBody(u, behind);
      SkipsGroup(u.num, u.inside, behind);
    } else {
      SkipsBody(u, behind);
    }
  }

  lemma GroupBody(u: Unknown, behind: seq<byte>)
    requires u.Group?
    ensures Kind(u) == 3 && Body(u) + behind == EncodeAll(u.inside) + (Tag(u.num, 4) + behind)
  {
  }

  lemma FirstSkipped(group: nat, u: Unknown, body: seq<byte>, behind: seq<byte>)
    requires 1 <= u.num < 0x2000_0000 && body == Body(u) + behind
    requires (if Kind(u) == 3 then SkipGroup(u.num, body) else SkipValue(Kind(u), body)) == Some(behind)
    ensures SkipGroup(group, EncodeUnknown(u) + behind) == SkipGroup(group, behind)
  {
    TagThenBody(u, behind);
    var kind := Kind(u);
    GroupGoesOn(group, u.num, kind, body, behind);
  }

  lemma FieldGoesOn(num: nat, kind: nat, body: seq<byte>)
    requires 1 <= num < 0x2000_0000 && kind < 8
    ensures ReadField(Tag(num, kind) + body) == ReadValue(num, kind, body)
  {
    TagReads(num, kind, body);
    FieldUnfolds(Tag(num, kind) + body, 8 * num + kind, num, kind, body);
  }

  lemma FieldUnfolds(b: seq<byte>, tag: nat, num: nat, kind: nat, body: seq<byte>)
    requires tag % TWO_32 == tag && tag / 8 == num && tag % 8 == kind && ReadVarint(b, 5) == Some(Read(tag, body))
    ensures ReadField(b) == ReadValue(num, kind, body)
  {
  }

  lemma BodyReads(u: Unknown, rest: seq<byte>)
    requires Written(u)
    ensures ReadValue(u.num, Kind(u), Body(u) + rest) == Some(Read(AsField(u), rest))
  {
    match u
    case Number(num, v) => ReadVarintValue(num, v, rest);
    case Fixed64(_, data) => TakeFront(data, rest);
    case Bytes(num, data) =>
      ReadLenValue(num, data, rest);
      assert Body(u) + rest == Varint(|data|) + (data + rest);
    case Group(num, inside) => GroupBodyReads(num, inside, rest);
    case Fixed32(_, data) => TakeFront(data, rest);
  }

  lemma GroupBodyReads(num: nat, inside: Unknowns, rest: seq<byte>)
    requires 1 <= num < 0x2000_0000 && AllWritten(inside)
    ensures ReadValue(num, 3, EncodeAll(inside) + Tag(num, 4) + rest) == Some(Read(Skipped(num), rest))
  {
    SkipsGroup(num, inside, rest);
    assert EncodeAll(inside) + Tag(num, 4) + rest == EncodeAll(inside) + (Tag(num, 4) + rest);
  }

  /** A field of any kind is read to its end. */
  lemma UnknownReads(u: Unknown, rest: seq<byte>)
    requires Written(u)
    ensures ReadField(EncodeUnknown(u) + rest) == Some(Read(AsField(u), rest))
  {
    TagThenBody(u, rest);
    FieldGoesOn(u.num, Kind(u), Body(u) + rest);
    BodyReads(u, rest);
  }

  lemma ParseSkips<M>(apply: (M, Field) -> Option<M>, u: Unknown, rest: seq<byte>, m: M)
    requires Written(u) && apply(m, AsField(u)) == Some(m)
    ensures Parse(apply, EncodeUnknown(u) + rest, m) == Parse(apply, rest, m)
  {
    UnknownReads(u, rest);
  }

  /** Any number of unknown fields before a message, or between two that are merged, makes no difference. */
  lemma {:induction false} ParseSkipsAll<M>(apply: (M, Field) -> Option<M>, us: Unknowns, rest: seq<byte>, m: M)
    requires AllWritten(us) && forall u :: Among(u, us) ==> apply(m, AsField(u)) == Some(m)
    ensures Parse(apply, EncodeAll(us) + rest, m) == Parse(apply, rest, m)
    decreases us
  {
    match us
    case NoMore => assert EncodeAll(us) + rest == rest;
    case More(u, others) =>
      assert EncodeAll(us) + rest == EncodeUnknown(u) + (EncodeAll(others) + rest);
      assert Among(u, us) && forall x :: Among(x, others) ==> Among(x, us);
      ParseSkips(apply, u, EncodeAll(others) + rest, m);
      ParseSkipsAll(apply, others, rest, m);
  }

  predicate Among(u: Unknown, us: Unknowns) {
    us.More? && (us.first == u || Among(u, us.rest))
  }

  /** Outside a group: number zero, the two wire types that do not exist, and the end of a group that was never
      begun. */
  lemma BadTagRefused(num: nat, kind: nat, rest: seq<byte>)
    requires num < 0x2000_0000 && kind < 8 && (num == 0 || kind in {4, 6, 7})
    ensures ReadField(Tag(num, kind) + rest) == None
  {
    TagReads(num, kind, rest);
    FieldUnfolds(Tag(num, kind) + rest, 8 * num + kind, num, kind, rest);
  }

  /** Inside a group: the same, and the end of another group. */
  lemma BadTagInGroupRefused(group: nat, num: nat, kind: nat, rest: seq<byte>)
    requires num < 0x2000_0000 && kind < 8 && (num == 0 || kind in {4, 6, 7}) && !(kind == 4 && num == group)
    ensures SkipGroup(group, Tag(num, kind) + rest) == None
  {
    TagReads(num, kind, rest);
    BadTagUnfolds(group, Tag(num, kind) + rest, 8 * num + kind, num, kind, rest);
  }

  lemma BadTagUnfolds(group: nat, b: seq<byte>, tag: nat, num: nat, kind: nat, rest: seq<byte>)
    requires tag % TWO_32 == tag && tag / 8 == num && tag % 8 == kind && ReadVarint(b, 5) == Some(Read(tag, rest))
    requires (num == 0 || kind in {4, 6, 7}) && !(kind == 4 && num == group)
    ensures SkipGroup(group, b) == None
  {
  }

  /** A varint that goes on after the tenth byte is refused, and so is a length of 2 GiB or more, inside a group as
      outside. */
  lemma OverlongRefused(b: seq<byte>, len: nat, rest: seq<byte>)
    requires |b| >= 10 && (forall i :: 0 <= i < 10 ==> b[i] >= 128) && TWO_31 <= len < Pow128(5)
    ensures SkipValue(0, b) == None && ReadVarint(b, 10) == None
    ensures SkipValue(2, Varint(len) + rest) == None
  {
    GoesOnTooLong(b, 10);
    VarintRoundTrip(len, 5, rest);
  }

  lemma {:induction false} GoesOnTooLong(b: seq<byte>, max: nat)
    requires |b| >= max && forall i :: 0 <= i < max ==> b[i] >= 128
    ensures ReadVarint(b, max) == None
    decreases max
  {
    if max > 0 {
      GoesOnTooLong(b[1..], max - 1);
    }
  }

  /** The field is none of a message's own: its number is not among the given ones for its wire type. */
  predicate Foreign(f: Field, numbers: set<nat>, strings: set<nat>) {
    (f.VarintField? ==> f.num !in numbers) && (f.LenField? ==> f.num !in strings)
  }

  /** Each message leaves alone whatever has another number than its own fields, or another wire type. */
  lemma ForeignFieldsIgnored(f: Field)
    ensures forall m :: Foreign(f, {2}, {1}) ==> ApplyListFilesRequest(m, f) == Some(m)
    ensures forall m :: Foreign(f, {3, 4, 5, 6}, {1, 2}) ==> ApplyFileEntry(m, f) == Some(m)
    ensures forall m :: Foreign(f, {3}, {1, 2}) ==> ApplyListFilesResponse(m, f) == Some(m)
    ensures forall m :: Foreign(f, {}, {1}) ==> ApplyGetFileMetaRequest(m, f) == Some(m)
    ensures forall m :: Foreign(f, {3, 4, 5, 6, 8, 9}, {1, 2, 7}) ==> ApplyFileMeta(m, f) == Some(m)
    ensures forall m :: Foreign(f, {2}, {1, 3}) ==> ApplyGetFileMetaResponse(m, f) == Some(m)
    ensures forall m :: Foreign(f, {1}, {10, 11}) ==> ApplyRpcRequest(m, f) == Some(m)
    ensures forall m :: Foreign(f, {1, 2}, {3, 10, 11}) ==> ApplyRpcResponse(m, f) == Some(m)
  {
  }

  /** A request with foreign fields in front parses as it does without them. */
  lemma RequestSkipsUnknown(us: Unknowns, b: seq<byte>)
    requires AllWritten(us) && forall u :: Among(u, us) ==> Foreign(AsField(u), {1}, {10, 11})
    ensures RpcRequestFromString(EncodeAll(us) + b) == RpcRequestFromString(b)
  {
    ParseSkipsAll(ApplyRpcRequest, us, b, EMPTY_RPC_REQUEST);
  }

  lemma ResponseSkipsUnknown(us: Unknowns, b: seq<byte>)
    requires AllWritten(us) && forall u :: Among(u, us) ==> Foreign(AsField(u), {1, 2}, {3, 10, 11})
    ensures RpcResponseFromString(EncodeAll(us) + b) == RpcResponseFromString(b)
  {
    ParseSkipsAll(ApplyRpcResponse, us, b, EMPTY_RPC_RESPONSE);
  }
}
