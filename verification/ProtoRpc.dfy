/** The messages that hold other messages, and the codec's main results. */
module ProtoRpc {
  import opened Bytes
  import opened Results
  import opened ProtoWire
  import opened ProtoMessages

  // ---------- ListFilesResponse ----------

  datatype ListFilesResponse = ListFilesResponse(files: seq<FileEntry>, directory: seq<byte>, totalCount: int)

  const EMPTY_LIST_FILES_RESPONSE := ListFilesResponse([], [], 0)

  predicate ValidFiles(files: seq<FileEntry>) {
    forall i :: 0 <= i < |files| ==> ValidFileEntry(files[i])
  }

  predicate ValidListFilesResponse(m: ListFilesResponse) {
    ValidFiles(m.files) && IsString(m.directory) && IsInt32(m.totalCount)
  }

  predicate TextFiles(files: seq<FileEntry>) {
    forall i :: 0 <= i < |files| ==> TextFileEntry(files[i])
  }

  predicate TextListFilesResponse(m: ListFilesResponse) {
    TextFiles(m.files) && Utf8(m.directory)
  }

  /** The length prefix is the size cached for the entry. */
  function EntryField(e: FileEntry): Field
    requires ValidFileEntry(e)
  {
    LenField(1, SizeFileEntry(e), SerializeFileEntry(e))
  }

  function EntryFields(files: seq<FileEntry>): (fs: seq<Field>)
    requires ValidFiles(files)
    ensures |fs| == |files|
    ensures forall i :: 0 <= i < |files| ==> fs[i] == EntryField(files[i])
  {
    seq(|files|, i requires 0 <= i < |files| => EntryField(files[i]))
  }

  function FieldsListFilesResponseFrom2(m: ListFilesResponse): Fields
    requires ValidListFilesResponse(m)
  {
    Next(m.directory != [], StringField(2, m.directory),
    Next(m.totalCount != 0, Number(3, m.totalCount),
    End))
  }

  function FieldsListFilesResponse(m: ListFilesResponse): Fields
    requires ValidListFilesResponse(m)
  {
    AllOf(EntryFields(m.files), FieldsListFilesResponseFrom2(m))
  }

  function SerializeListFilesResponse(m: ListFilesResponse): seq<byte>
    requires ValidListFilesResponse(m)
  {
    Encode(FieldsListFilesResponse(m))
  }

  function MessageSize(size: nat): nat {
    VarintSize(size) + size
  }

  function EntriesSize(files: seq<FileEntry>): nat
    requires ValidFiles(files)
  {
    if files == [] then 0 else MessageSize(SizeFileEntry(files[0])) + EntriesSize(files[1..])
  }

  function SizeListFilesResponse(m: ListFilesResponse): nat
    requires ValidListFilesResponse(m)
  {
    |m.files| + EntriesSize(m.files) +
    Sized(m.directory != [], StringSize(m.directory)) +
    Sized(m.totalCount != 0, VarintSize(Unsigned64(m.totalCount)))
  }

  function MergeListFilesResponse(to: ListFilesResponse, from: ListFilesResponse): ListFilesResponse {
    to.(files := to.files + from.files,
        directory := if from.directory != [] then from.directory else to.directory,
        totalCount := if from.totalCount != 0 then from.totalCount else to.totalCount)
  }

  function ApplyListFilesResponse(m: ListFilesResponse, f: Field): Option<ListFilesResponse> {
    if f.LenField? && f.num == 1 then
      var e :- Parse(ApplyFileEntry, f.payload, EMPTY_FILE_ENTRY);
      Some(m.(files := m.files + [e]))
    else if f.LenField? && f.num == 2 then if Utf8(f.payload) then Some(m.(directory := f.payload)) else None
    else if f.VarintField? && f.num == 3 then Some(m.(totalCount := Signed32(f.value)))
    else Some(m)
  }

  lemma {:induction false} LengthOfEntryFields(files: seq<FileEntry>, rest: Fields)
    requires ValidFiles(files)
    ensures |Encode(AllOf(EntryFields(files), rest))| == |files| + EntriesSize(files) + |Encode(rest)|
    decreases |files|
  {
    if files != [] {
      assert EntryFields(files)[1..] == EntryFields(files[1..]);
      SizeIsLengthFileEntry(files[0]);
      LengthOfLen(1, SizeFileEntry(files[0]), SerializeFileEntry(files[0]));
      LengthOfEntryFields(files[1..], rest);
    }
  }

  lemma LengthOfListFilesResponseFrom2(m: ListFilesResponse)
    requires ValidListFilesResponse(m)
    ensures |Encode(FieldsListFilesResponseFrom2(m))| ==
      Sized(m.directory != [], StringSize(m.directory)) +
      Sized(m.totalCount != 0, VarintSize(Unsigned64(m.totalCount)))
  {
    Int32RoundTrip(m.totalCount);
    var f1 := FieldsListFilesResponseFrom2(m);
    var f2 := f1.rest;
    LengthOfLen(2, |m.directory|, m.directory);
    LengthOfVarint(3, Unsigned64(m.totalCount));
    assert |Encode(f2)| == (if f2.present then |EncodeField(f2.field)| else 0) + |Encode(f2.rest)|;
    assert |Encode(f1)| == (if f1.present then |EncodeField(f1.field)| else 0) + |Encode(f1.rest)|;
  }

  /** The size that ByteSizeLong adds up is the length of what is written, entry by entry. */
  lemma SizeIsLengthListFilesResponse(m: ListFilesResponse)
    requires ValidListFilesResponse(m)
    ensures |SerializeListFilesResponse(m)| == SizeListFilesResponse(m)
  {
    LengthOfEntryFields(m.files, FieldsListFilesResponseFrom2(m));
    LengthOfListFilesResponseFrom2(m);
  }

  lemma EntryRoundTrip(e: FileEntry)
    requires ValidFileEntry(e)
    ensures Parse(ApplyFileEntry, SerializeFileEntry(e), EMPTY_FILE_ENTRY) == if TextFileEntry(e) then Some(e) else None
  {
    IntoFileEntry(EMPTY_FILE_ENTRY, e);
    assert MergeFileEntry(EMPTY_FILE_ENTRY, e) == e;
    ParseMerges(ApplyFileEntry, FieldsFileEntry(e), [], EMPTY_FILE_ENTRY, if TextFileEntry(e) then Some(e) else None);
  }

  lemma EntryApplied(to: ListFilesResponse, e: FileEntry)
    requires ValidFileEntry(e)
    ensures ApplyListFilesResponse(to, EntryField(e)) == if TextFileEntry(e) then Some(WithEntry(to, e)) else None
    ensures SizeFileEntry(e) < TWO_31 ==> Proper(EntryField(e))
  {
    SizeIsLengthFileEntry(e);
    EntryRoundTrip(e);
  }

  lemma {:induction false} EntryWithin(files: seq<FileEntry>, i: nat)
    requires ValidFiles(files) && i < |files|
    ensures SizeFileEntry(files[i]) <= EntriesSize(files)
    decreases |files|
  {
    if i > 0 {
      EntryWithin(files[1..], i - 1);
    }
  }

  lemma EntriesProper(files: seq<FileEntry>, rest: Fields)
    requires ValidFiles(files) && EntriesSize(files) < TWO_31 && AllProper(rest)
    ensures AllProper(AllOf(EntryFields(files), rest))
  {
    forall i | 0 <= i < |files|
      ensures Proper(EntryFields(files)[i])
    {
      EntryWithin(files, i);
      EntryApplied(EMPTY_LIST_FILES_RESPONSE, files[i]);
    }
    ProperAllOf(EntryFields(files), rest);
  }

  function WithEntry(m: ListFilesResponse, e: FileEntry): ListFilesResponse {
    m.(files := m.files + [e])
  }

  /** Fields that each append one entry append them all, in order, up to the first that is not UTF-8. */
  lemma {:induction false} AppendEntries(apply: (ListFilesResponse, Field) -> Option<ListFilesResponse>, fs: seq<Field>,
                      files: seq<FileEntry>, to: ListFilesResponse, rest: Fields)
    requires |fs| == |files|
    requires forall i, m :: 0 <= i < |fs| ==>
      apply(m, fs[i]) == if TextFileEntry(files[i]) then Some(WithEntry(m, files[i])) else None
    ensures ApplyAll(apply, AllOf(fs, rest), to) ==
            if TextFiles(files) then ApplyAll(apply, rest, to.(files := to.files + files)) else None
    decreases |fs|
  {
    if fs == [] {
      assert to.files + files == to.files;
    } else if !TextFileEntry(files[0]) {
      assert apply(to, fs[0]) == None;
    } else {
      var to' := WithEntry(to, files[0]);
      assert apply(to, fs[0]) == Some(to');
      AppendEntries(apply, fs[1..], files[1..], to', rest);
      TextFilesFirst(files);
      assert to.files + [files[0]] + files[1..] == to.files + files;
    }
  }

  lemma TextFilesFirst(files: seq<FileEntry>)
    requires files != []
    ensures TextFiles(files) <==> TextFileEntry(files[0]) && TextFiles(files[1..])
  {
    if TextFileEntry(files[0]) && TextFiles(files[1..]) {
      forall i | 0 <= i < |files|
        ensures TextFileEntry(files[i])
      {
        assert i > 0 ==> files[1..][i - 1] == files[i];
      }
    }
  }

  lemma IntoEntryFields(to: ListFilesResponse, files: seq<FileEntry>, rest: Fields)
    requires ValidFiles(files)
    ensures ApplyAll(ApplyListFilesResponse, AllOf(EntryFields(files), rest), to) ==
            if TextFiles(files) then ApplyAll(ApplyListFilesResponse, rest, to.(files := to.files + files)) else None
  {
    var fs := EntryFields(files);
    forall i, m | 0 <= i < |fs|
      ensures ApplyListFilesResponse(m, fs[i]) == if TextFileEntry(files[i]) then Some(WithEntry(m, files[i])) else None
    {
      EntryApplied(m, files[i]);
    }
    AppendEntries(ApplyListFilesResponse, fs, files, to, rest);
  }

  lemma IntoListFilesResponseFrom2(to: ListFilesResponse, m: ListFilesResponse)
    requires ValidListFilesResponse(m)
    ensures AllProper(FieldsListFilesResponseFrom2(m))
    ensures ApplyAll(ApplyListFilesResponse, FieldsListFilesResponseFrom2(m), to) ==
      if !Utf8(m.directory) then None
      else Some(to.(directory := if m.directory != [] then m.directory else to.directory,
                    totalCount := if m.totalCount != 0 then m.totalCount else to.totalCount))
  {
    Int32RoundTrip(m.totalCount);
    var f1 := FieldsListFilesResponseFrom2(m);
    var t1 := to.(directory := if m.directory != [] then m.directory else to.directory);
    ApplyText(ApplyListFilesResponse, f1, to, t1, Utf8(m.directory));
    var f2 := f1.rest;
    var t2 := t1.(totalCount := if m.totalCount != 0 then m.totalCount else t1.totalCount);
    ApplyNext(ApplyListFilesResponse, f2, t1, t2);
    assert AllProper(f2);
    assert AllProper(f1);
  }

  lemma IntoListFilesResponse(to: ListFilesResponse, m: ListFilesResponse)
    requires ValidListFilesResponse(m) && SizeListFilesResponse(m) < TWO_31
    ensures AllProper(FieldsListFilesResponse(m))
    ensures ApplyAll(ApplyListFilesResponse, FieldsListFilesResponse(m), to) ==
            if TextListFilesResponse(m) then Some(MergeListFilesResponse(to, m)) else None
  {
    var to' := to.(files := to.files + m.files);
    IntoListFilesResponseFrom2(to', m);
    IntoEntryFields(to, m.files, FieldsListFilesResponseFrom2(m));
    EntriesProper(m.files, FieldsListFilesResponseFrom2(m));
  }

  // ---------- GetFileMetaResponse ----------

  datatype GetFileMetaResponse = GetFileMetaResponse(meta: Option<FileMeta>, success: bool, error: seq<byte>)

  const EMPTY_GET_FILE_META_RESPONSE := GetFileMetaResponse(None, false, [])

  predicate ValidGetFileMetaResponse(m: GetFileMetaResponse) {
    (m.meta.Some? ==> ValidFileMeta(m.meta.value)) && IsString(m.error)
  }

  predicate TextGetFileMetaResponse(m: GetFileMetaResponse) {
    (m.meta.Some? ==> TextFileMeta(m.meta.value)) && Utf8(m.error)
  }

  function MetaField(m: GetFileMetaResponse): Field
    requires ValidGetFileMetaResponse(m)
  {
    if m.meta.Some? then LenField(1, SizeFileMeta(m.meta.value), SerializeFileMeta(m.meta.value)) else Skipped(1)
  }

  function FieldsGetFileMetaResponse(m: GetFileMetaResponse): Fields
    requires ValidGetFileMetaResponse(m)
  {
    Next(m.meta.Some?, MetaField(m),
    Next(m.success, Flag(2),
    Next(m.error != [], StringField(3, m.error),
    End)))
  }

  function SerializeGetFileMetaResponse(m: GetFileMetaResponse): seq<byte>
    requires ValidGetFileMetaResponse(m)
  {
    Encode(FieldsGetFileMetaResponse(m))
  }

  function SizeGetFileMetaResponse(m: GetFileMetaResponse): nat
    requires ValidGetFileMetaResponse(m)
  {
    Sized(m.error != [], StringSize(m.error)) +
    (if m.meta.Some? then 1 + MessageSize(SizeFileMeta(m.meta.value)) else 0) +
    Sized(m.success, 1)
  }

  function MetaOrEmpty(m: GetFileMetaResponse): FileMeta {
    if m.meta.Some? then m.meta.value else EMPTY_FILE_META
  }

  function MergeGetFileMetaResponse(to: GetFileMetaResponse, from: GetFileMetaResponse): GetFileMetaResponse {
    to.(error := if from.error != [] then from.error else to.error,
        meta := if from.meta.Some? then Some(MergeFileMeta(MetaOrEmpty(to), from.meta.value)) else to.meta,
        success := if from.success then from.success else to.success)
  }

  function ApplyGetFileMetaResponse(m: GetFileMetaResponse, f: Field): Option<GetFileMetaResponse> {
    if f.LenField? && f.num == 1 then
      var meta :- Parse(ApplyFileMeta, f.payload, MetaOrEmpty(m));
      Some(m.(meta := Some(meta)))
    else if f.VarintField? && f.num == 2 then Some(m.(success := f.value != 0))
    else if f.LenField? && f.num == 3 then if Utf8(f.payload) then Some(m.(error := f.payload)) else None
    else Some(m)
  }

  lemma SizeIsLengthGetFileMetaResponse(m: GetFileMetaResponse)
    requires ValidGetFileMetaResponse(m)
    ensures |SerializeGetFileMetaResponse(m)| == SizeGetFileMetaResponse(m)
  {
    var f1 := FieldsGetFileMetaResponse(m);
    var f2 := f1.rest;
    var f3 := f2.rest;
    if m.meta.Some? {
      SizeIsLengthFileMeta(m.meta.value);
      LengthOfLen(1, SizeFileMeta(m.meta.value), SerializeFileMeta(m.meta.value));
    }
    LengthOfVarint(2, 1);
    LengthOfLen(3, |m.error|, m.error);
    assert |Encode(f3)| == (if f3.present then |EncodeField(f3.field)| else 0) + |Encode(f3.rest)|;
    assert |Encode(f2)| == (if f2.present then |EncodeField(f2.field)| else 0) + |Encode(f2.rest)|;
    assert |Encode(f1)| == (if f1.present then |EncodeField(f1.field)| else 0) + |Encode(f1.rest)|;
  }

  lemma MetaInto(to: FileMeta, m: FileMeta)
    requires ValidFileMeta(m)
    ensures Parse(ApplyFileMeta, SerializeFileMeta(m), to) ==
            if TextFileMeta(m) then Some(MergeFileMeta(to, m)) else None
  {
    IntoFileMeta(to, m);
    ParseMerges(ApplyFileMeta, FieldsFileMeta(m), [], to, if TextFileMeta(m) then Some(MergeFileMeta(to, m)) else None);
  }

  lemma IntoGetFileMetaResponse(to: GetFileMetaResponse, m: GetFileMetaResponse)
    requires ValidGetFileMetaResponse(m) && SizeGetFileMetaResponse(m) < TWO_31
    ensures AllProper(FieldsGetFileMetaResponse(m))
    ensures ApplyAll(ApplyGetFileMetaResponse, FieldsGetFileMetaResponse(m), to) ==
            if TextGetFileMetaResponse(m) then Some(MergeGetFileMetaResponse(to, m)) else None
  {
    var f1 := FieldsGetFileMetaResponse(m);
    if m.meta.Some? {
      MetaInto(MetaOrEmpty(to), m.meta.value);
      SizeIsLengthFileMeta(m.meta.value);
    }
    var t1 := to.(meta := if m.meta.Some? then Some(MergeFileMeta(MetaOrEmpty(to), m.meta.value)) else to.meta);
    ApplyText(ApplyGetFileMetaResponse, f1, to, t1, m.meta.Some? ==> TextFileMeta(m.meta.value));
    var f2 := f1.rest;
    var t2 := t1.(success := if m.success then m.success else t1.success);
    ApplyNext(ApplyGetFileMetaResponse, f2, t1, t2);
    var f3 := f2.rest;
    var t3 := t2.(error := if m.error != [] then m.error else t2.error);
    ApplyText(ApplyGetFileMetaResponse, f3, t2, t3, Utf8(m.error));
    assert AllProper(f3);
    assert AllProper(f2);
    assert AllProper(f1);
  }

  // ---------- RpcRequest ----------

  datatype RequestPayload = NoRequest | ListCall(list: ListFilesRequest) | MetaCall(get: GetFileMetaRequest)

  datatype RpcRequest = RpcRequest(rpcType: int, payload: RequestPayload)

  const EMPTY_RPC_REQUEST := RpcRequest(0, NoRequest)

  predicate ValidRequestPayload(p: RequestPayload) {
    match p
    case NoRequest => true
    case ListCall(x) => ValidListFilesRequest(x)
    case MetaCall(x) => ValidGetFileMetaRequest(x)
  }

  predicate ValidRpcRequest(m: RpcRequest) {
    IsInt32(m.rpcType) && ValidRequestPayload(m.payload)
  }

  predicate TextRequestPayload(p: RequestPayload) {
    match p
    case NoRequest => true
    case ListCall(x) => TextListFilesRequest(x)
    case MetaCall(x) => TextGetFileMetaRequest(x)
  }

  predicate TextRpcRequest(m: RpcRequest) {
    TextRequestPayload(m.payload)
  }

  function RequestPayloadField(p: RequestPayload): Field
    requires ValidRequestPayload(p)
  {
    match p
    case NoRequest => Skipped(10)
    case ListCall(x) => LenField(10, SizeListFilesRequest(x), SerializeListFilesRequest(x))
    case MetaCall(x) => LenField(11, SizeGetFileMetaRequest(x), SerializeGetFileMetaRequest(x))
  }

  function FieldsRpcRequest(m: RpcRequest): Fields
    requires ValidRpcRequest(m)
  {
    Next(m.rpcType != 0, Number(1, m.rpcType),
    Next(m.payload != NoRequest, RequestPayloadField(m.payload),
    End))
  }

  function SerializeRpcRequest(m: RpcRequest): seq<byte>
    requires ValidRpcRequest(m)
  {
    Encode(FieldsRpcRequest(m))
  }

  function SizeRequestPayload(p: RequestPayload): nat
    requires ValidRequestPayload(p)
  {
    match p
    case NoRequest => 0
    case ListCall(x) => 1 + MessageSize(SizeListFilesRequest(x))
    case MetaCall(x) => 1 + MessageSize(SizeGetFileMetaRequest(x))
  }

  function SizeRpcRequest(m: RpcRequest): nat
    requires ValidRpcRequest(m)
  {
    Sized(m.rpcType != 0, VarintSize(Unsigned64(m.rpcType))) +
    SizeRequestPayload(m.payload)
  }

  /** The message that a payload case is parsed or merged into: fresh unless that case is the one set. */
  function ListCallOf(p: RequestPayload): ListFilesRequest {
    if p.ListCall? then p.list else EMPTY_LIST_FILES_REQUEST
  }

  function MetaCallOf(p: RequestPayload): GetFileMetaRequest {
    if p.MetaCall? then p.get else EMPTY_GET_FILE_META_REQUEST
  }

  /** The same case is merged, a different case is replaced, and an unset one changes nothing. */
  function MergeRequestPayload(to: RequestPayload, from: RequestPayload): RequestPayload {
    match from
    case NoRequest => to
    case ListCall(x) => ListCall(MergeListFilesRequest(ListCallOf(to), x))
    case MetaCall(x) => MetaCall(MergeGetFileMetaRequest(MetaCallOf(to), x))
  }

  function MergeRpcRequest(to: RpcRequest, from: RpcRequest): RpcRequest {
    to.(rpcType := if from.rpcType != 0 then from.rpcType else to.rpcType,
        payload := MergeRequestPayload(to.payload, from.payload))
  }

  function ApplyRpcRequest(m: RpcRequest, f: Field): Option<RpcRequest> {
    if f.VarintField? && f.num == 1 then Some(m.(rpcType := Signed32(f.value)))
    else if f.LenField? && f.num == 10 then
      var x :- Parse(ApplyListFilesRequest, f.payload, ListCallOf(m.payload));
      Some(m.(payload := ListCall(x)))
    else if f.LenField? && f.num == 11 then
      var x :- Parse(ApplyGetFileMetaRequest, f.payload, MetaCallOf(m.payload));
      Some(m.(payload := MetaCall(x)))
    else Some(m)
  }

  lemma LengthOfRequestPayload(p: RequestPayload)
    requires ValidRequestPayload(p)
    ensures (if p == NoRequest then 0 else |EncodeField(RequestPayloadField(p))|) == SizeRequestPayload(p)
  {
    match p
    case NoRequest =>
    case ListCall(x) =>
      SizeIsLengthListFilesRequest(x);
      LengthOfLen(10, SizeListFilesRequest(x), SerializeListFilesRequest(x));
    case MetaCall(x) =>
      SizeIsLengthGetFileMetaRequest(x);
      LengthOfLen(11, SizeGetFileMetaRequest(x), SerializeGetFileMetaRequest(x));
  }

  /** The size that ByteSizeLong adds up is the length of what is written, nested messages included. */
  lemma SizeIsLengthRpcRequest(m: RpcRequest)
    requires ValidRpcRequest(m)
    ensures |SerializeRpcRequest(m)| == SizeRpcRequest(m)
  {
    Int32RoundTrip(m.rpcType);
    LengthOfVarint(1, Unsigned64(m.rpcType));
    LengthOfRequestPayload(m.payload);
    var f1 := FieldsRpcRequest(m);
    var f2 := f1.rest;
    assert |Encode(f2)| == (if f2.present then |EncodeField(f2.field)| else 0) + |Encode(f2.rest)|;
    assert |Encode(f1)| == (if f1.present then |EncodeField(f1.field)| else 0) + |Encode(f1.rest)|;
  }

  lemma ListCallInto(to: RpcRequest, x: ListFilesRequest)
    requires ValidListFilesRequest(x) && SizeListFilesRequest(x) < TWO_31
    ensures Proper(RequestPayloadField(ListCall(x)))
    ensures ApplyRpcRequest(to, RequestPayloadField(ListCall(x))) ==
            if TextListFilesRequest(x) then Some(to.(payload := MergeRequestPayload(to.payload, ListCall(x)))) else None
  {
    SizeIsLengthListFilesRequest(x);
    var old_ := ListCallOf(to.payload);
    IntoListFilesRequest(old_, x);
    ParseMerges(ApplyListFilesRequest, FieldsListFilesRequest(x), [], old_,
                if TextListFilesRequest(x) then Some(MergeListFilesRequest(old_, x)) else None);
  }

  lemma MetaCallInto(to: RpcRequest, x: GetFileMetaRequest)
    requires ValidGetFileMetaRequest(x) && SizeGetFileMetaRequest(x) < TWO_31
    ensures Proper(RequestPayloadField(MetaCall(x)))
    ensures ApplyRpcRequest(to, RequestPayloadField(MetaCall(x))) ==
            if TextGetFileMetaRequest(x) then Some(to.(payload := MergeRequestPayload(to.payload, MetaCall(x))))
            else None
  {
    SizeIsLengthGetFileMetaRequest(x);
    var old_ := MetaCallOf(to.payload);
    IntoGetFileMetaRequest(old_, x);
    ParseMerges(ApplyGetFileMetaRequest, FieldsGetFileMetaRequest(x), [], old_,
                if TextGetFileMetaRequest(x) then Some(MergeGetFileMetaRequest(old_, x)) else None);
  }

  lemma RequestPayloadInto(to: RpcRequest, p: RequestPayload)
    requires ValidRequestPayload(p) && p != NoRequest && SizeRequestPayload(p) < TWO_31
    ensures Proper(RequestPayloadField(p))
    ensures ApplyRpcRequest(to, RequestPayloadField(p)) ==
            if TextRequestPayload(p) then Some(to.(payload := MergeRequestPayload(to.payload, p))) else None
  {
    match p
    case ListCall(x) => ListCallInto(to, x);
    case MetaCall(x) => MetaCallInto(to, x);
  }

  lemma IntoRpcRequest(to: RpcRequest, m: RpcRequest)
    requires ValidRpcRequest(m) && SizeRpcRequest(m) < TWO_31
    ensures AllProper(FieldsRpcRequest(m))
    ensures ApplyAll(ApplyRpcRequest, FieldsRpcRequest(m), to) ==
            if TextRpcRequest(m) then Some(MergeRpcRequest(to, m)) else None
  {
    Int32RoundTrip(m.rpcType);
    var f1 := FieldsRpcRequest(m);
    var t1 := to.(rpcType := if m.rpcType != 0 then m.rpcType else to.rpcType);
    ApplyNext(ApplyRpcRequest, f1, to, t1);
    var f2 := f1.rest;
    var t2 := t1.(payload := MergeRequestPayload(t1.payload, m.payload));
    if m.payload != NoRequest {
      RequestPayloadInto(t1, m.payload);
    }
    ApplyText(ApplyRpcRequest, f2, t1, t2, TextRequestPayload(m.payload));
    assert AllProper(f2);
    assert AllProper(f1);
  }

  /** SerializeToString: fails for messages of 2 GiB and more. */
  function RpcRequestToString(m: RpcRequest): Option<seq<byte>>
    requires ValidRpcRequest(m)
  {
    if SizeRpcRequest(m) < TWO_31 then Some(SerializeRpcRequest(m)) else None
  }

  /** ParseFromString: the message is cleared first. */
  function RpcRequestFromString(b: seq<byte>): Option<RpcRequest> {
    Parse(ApplyRpcRequest, b, EMPTY_RPC_REQUEST)
  }

  /** Whatever can be serialised parses back to itself if its strings are UTF-8; otherwise it does not
      parse at all. */
  lemma RpcRequestRoundTrip(m: RpcRequest)
    requires ValidRpcRequest(m) && RpcRequestToString(m).Some?
    ensures RpcRequestFromString(RpcRequestToString(m).value) == if TextRpcRequest(m) then Some(m) else None
  {
    IntoRpcRequest(EMPTY_RPC_REQUEST, m);
    MergeIntoEmptyRpcRequest(m);
    ParseMerges(ApplyRpcRequest, FieldsRpcRequest(m), [], EMPTY_RPC_REQUEST,
                if TextRpcRequest(m) then Some(m) else None);
  }

  lemma MergeIntoEmptyRpcRequest(m: RpcRequest)
    ensures MergeRpcRequest(EMPTY_RPC_REQUEST, m) == m
  {
  }

  /** Parsing one serialisation after another merges the second message into the first, or fails if a string
      of either is not UTF-8. */
  lemma RpcRequestConcatenationMerges(a: RpcRequest, b: RpcRequest)
    requires ValidRpcRequest(a) && ValidRpcRequest(b) && RpcRequestToString(a).Some? && RpcRequestToString(b).Some?
    ensures RpcRequestFromString(RpcRequestToString(a).value + RpcRequestToString(b).value) ==
            if TextRpcRequest(a) && TextRpcRequest(b) then Some(MergeRpcRequest(a, b)) else None
  {
    IntoRpcRequest(EMPTY_RPC_REQUEST, a);
    MergeIntoEmptyRpcRequest(a);
    var first := if TextRpcRequest(a) then Some(a) else None;
    ParseMerges(ApplyRpcRequest, FieldsRpcRequest(a), SerializeRpcRequest(b), EMPTY_RPC_REQUEST, first);
    IntoRpcRequest(a, b);
    ParseMerges(ApplyRpcRequest, FieldsRpcRequest(b), [], a,
                if TextRpcRequest(b) then Some(MergeRpcRequest(a, b)) else None);
  }

  // ---------- RpcResponse ----------

  datatype ResponsePayload = NoResponse | ListReply(listing: ListFilesResponse) | MetaReply(meta: GetFileMetaResponse)

  datatype RpcResponse = RpcResponse(rpcType: int, success: bool, error: seq<byte>, payload: ResponsePayload)

  const EMPTY_RPC_RESPONSE := RpcResponse(0, false, [], NoResponse)

  predicate ValidResponsePayload(p: ResponsePayload) {
    match p
    case NoResponse => true
    case ListReply(x) => ValidListFilesResponse(x)
    case MetaReply(x) => ValidGetFileMetaResponse(x)
  }

  predicate ValidRpcResponse(m: RpcResponse) {
    IsInt32(m.rpcType) && ValidResponsePayload(m.payload) && IsString(m.error)
  }

  predicate TextResponsePayload(p: ResponsePayload) {
    match p
    case NoResponse => true
    case ListReply(x) => TextListFilesResponse(x)
    case MetaReply(x) => TextGetFileMetaResponse(x)
  }

  predicate TextRpcResponse(m: RpcResponse) {
    TextResponsePayload(m.payload) && Utf8(m.error)
  }

  function ResponsePayloadField(p: ResponsePayload): Field
    requires ValidResponsePayload(p)
  {
    match p
    case NoResponse => Skipped(10)
    case ListReply(x) => LenField(10, SizeListFilesResponse(x), SerializeListFilesResponse(x))
    case MetaReply(x) => LenField(11, SizeGetFileMetaResponse(x), SerializeGetFileMetaResponse(x))
  }

  function FieldsRpcResponse(m: RpcResponse): Fields
    requires ValidRpcResponse(m)
  {
    Next(m.rpcType != 0, Number(1, m.rpcType),
    Next(m.success, Flag(2),
    Next(m.error != [], StringField(3, m.error),
    Next(m.payload != NoResponse, ResponsePayloadField(m.payload),
    End))))
  }

  function SerializeRpcResponse(m: RpcResponse): seq<byte>
    requires ValidRpcResponse(m)
  {
    Encode(FieldsRpcResponse(m))
  }

  function SizeResponsePayload(p: ResponsePayload): nat
    requires ValidResponsePayload(p)
  {
    match p
    case NoResponse => 0
    case ListReply(x) => 1 + MessageSize(SizeListFilesResponse(x))
    case MetaReply(x) => 1 + MessageSize(SizeGetFileMetaResponse(x))
  }

  function SizeRpcResponse(m: RpcResponse): nat
    requires ValidRpcResponse(m)
  {
    Sized(m.error != [], StringSize(m.error)) +
    Sized(m.rpcType != 0, VarintSize(Unsigned64(m.rpcType))) +
    Sized(m.success, 1) +
    SizeResponsePayload(m.payload)
  }

  /** The message that a payload case is parsed or merged into: fresh unless that case is the one set. */
  function ListReplyOf(p: ResponsePayload): ListFilesResponse {
    if p.ListReply? then p.listing else EMPTY_LIST_FILES_RESPONSE
  }

  function MetaReplyOf(p: ResponsePayload): GetFileMetaResponse {
    if p.MetaReply? then p.meta else EMPTY_GET_FILE_META_RESPONSE
  }

  /** The same case is merged, a different case is replaced, and an unset one changes nothing. */
  function MergeResponsePayload(to: ResponsePayload, from: ResponsePayload): ResponsePayload {
    match from
    case NoResponse => to
    case ListReply(x) => ListReply(MergeListFilesResponse(ListReplyOf(to), x))
    case MetaReply(x) => MetaReply(MergeGetFileMetaResponse(MetaReplyOf(to), x))
  }

  function MergeRpcResponse(to: RpcResponse, from: RpcResponse): RpcResponse {
    to.(error := if from.error != [] then from.error else to.error,
        rpcType := if from.rpcType != 0 then from.rpcType else to.rpcType,
        success := if from.success then from.success else to.success,
        payload := MergeResponsePayload(to.payload, from.payload))
  }

  function ApplyRpcResponse(m: RpcResponse, f: Field): Option<RpcResponse> {
    if f.VarintField? && f.num == 1 then Some(m.(rpcType := Signed32(f.value)))
    else if f.VarintField? && f.num == 2 then Some(m.(success := f.value != 0))
    else if f.LenField? && f.num == 3 then if Utf8(f.payload) then Some(m.(error := f.payload)) else None
    else if f.LenField? && f.num == 10 then
      var x :- Parse(ApplyListFilesResponse, f.payload, ListReplyOf(m.payload));
      Some(m.(payload := ListReply(x)))
    else if f.LenField? && f.num == 11 then
      var x :- Parse(ApplyGetFileMetaResponse, f.payload, MetaReplyOf(m.payload));
      Some(m.(payload := MetaReply(x)))
    else Some(m)
  }

  lemma LengthOfResponsePayload(p: ResponsePayload)
    requires ValidResponsePayload(p)
    ensures (if p == NoResponse then 0 else |EncodeField(ResponsePayloadField(p))|) == SizeResponsePayload(p)
  {
    match p
    case NoResponse =>
    case ListReply(x) =>
      SizeIsLengthListFilesResponse(x);
      LengthOfLen(10, SizeListFilesResponse(x), SerializeListFilesResponse(x));
    case MetaReply(x) =>
      SizeIsLengthGetFileMetaResponse(x);
      LengthOfLen(11, SizeGetFileMetaResponse(x), SerializeGetFileMetaResponse(x));
  }

  /** The size that ByteSizeLong adds up is the length of what is written, nested messages included. */
  lemma SizeIsLengthRpcResponse(m: RpcResponse)
    requires ValidRpcResponse(m)
    ensures |SerializeRpcResponse(m)| == SizeRpcResponse(m)
  {
    Int32RoundTrip(m.rpcType);
    LengthOfVarint(1, Unsigned64(m.rpcType));
    LengthOfVarint(2, 1);
    LengthOfLen(3, |m.error|, m.error);
    LengthOfResponsePayload(m.payload);
    var f1 := FieldsRpcResponse(m);
    var f2 := f1.rest;
    var f3 := f2.rest;
    var f4 := f3.rest;
    assert |Encode(f4)| == (if f4.present then |EncodeField(f4.field)| else 0) + |Encode(f4.rest)|;
    assert |Encode(f3)| == (if f3.present then |EncodeField(f3.field)| else 0) + |Encode(f3.rest)|;
    assert |Encode(f2)| == (if f2.present then |EncodeField(f2.field)| else 0) + |Encode(f2.rest)|;
    assert |Encode(f1)| == (if f1.present then |EncodeField(f1.field)| else 0) + |Encode(f1.rest)|;
  }

  lemma ListReplyInto(to: RpcResponse, x: ListFilesResponse)
    requires ValidListFilesResponse(x) && SizeListFilesResponse(x) < TWO_31
    ensures Proper(ResponsePayloadField(ListReply(x)))
    ensures ApplyRpcResponse(to, ResponsePayloadField(ListReply(x))) ==
            if TextListFilesResponse(x) then Some(to.(payload := MergeResponsePayload(to.payload, ListReply(x))))
            else None
  {
    SizeIsLengthListFilesResponse(x);
    var old_ := ListReplyOf(to.payload);
    IntoListFilesResponse(old_, x);
    ParseMerges(ApplyListFilesResponse, FieldsListFilesResponse(x), [], old_,
                if TextListFilesResponse(x) then Some(MergeListFilesResponse(old_, x)) else None);
  }

  lemma MetaReplyInto(to: RpcResponse, x: GetFileMetaResponse)
    requires ValidGetFileMetaResponse(x) && SizeGetFileMetaResponse(x) < TWO_31
    ensures Proper(ResponsePayloadField(MetaReply(x)))
    ensures ApplyRpcResponse(to, ResponsePayloadField(MetaReply(x))) ==
            if TextGetFileMetaResponse(x) then Some(to.(payload := MergeResponsePayload(to.payload, MetaReply(x))))
            else None
  {
    SizeIsLengthGetFileMetaResponse(x);
    var old_ := MetaReplyOf(to.payload);
    IntoGetFileMetaResponse(old_, x);
    ParseMerges(ApplyGetFileMetaResponse, FieldsGetFileMetaResponse(x), [], old_,
                if TextGetFileMetaResponse(x) then Some(MergeGetFileMetaResponse(old_, x)) else None);
  }

  lemma ResponsePayloadInto(to: RpcResponse, p: ResponsePayload)
    requires ValidResponsePayload(p) && p != NoResponse && SizeResponsePayload(p) < TWO_31
    ensures Proper(ResponsePayloadField(p))
    ensures ApplyRpcResponse(to, ResponsePayloadField(p)) ==
            if TextResponsePayload(p) then Some(to.(payload := MergeResponsePayload(to.payload, p))) else None
  {
    match p
    case ListReply(x) => ListReplyInto(to, x);
    case MetaReply(x) => MetaReplyInto(to, x);
  }

  lemma IntoRpcResponse(to: RpcResponse, m: RpcResponse)
    requires ValidRpcResponse(m) && SizeRpcResponse(m) < TWO_31
    ensures AllProper(FieldsRpcResponse(m))
    ensures ApplyAll(ApplyRpcResponse, FieldsRpcResponse(m), to) ==
            if TextRpcResponse(m) then Some(MergeRpcResponse(to, m)) else None
  {
    Int32RoundTrip(m.rpcType);
    var f1 := FieldsRpcResponse(m);
    var t1 := to.(rpcType := if m.rpcType != 0 then m.rpcType else to.rpcType);
    ApplyNext(ApplyRpcResponse, f1, to, t1);
    var f2 := f1.rest;
    var t2 := t1.(success := if m.success then m.success else t1.success);
    ApplyNext(ApplyRpcResponse, f2, t1, t2);
    var f3 := f2.rest;
    var t3 := t2.(error := if m.error != [] then m.error else t2.error);
    ApplyText(ApplyRpcResponse, f3, t2, t3, Utf8(m.error));
    var f4 := f3.rest;
    var t4 := t3.(payload := MergeResponsePayload(t3.payload, m.payload));
    if m.payload != NoResponse {
      ResponsePayloadInto(t3, m.payload);
    }
    ApplyText(ApplyRpcResponse, f4, t3, t4, TextResponsePayload(m.payload));
    assert AllProper(f4);
    assert AllProper(f3);
    assert AllProper(f2);
    assert AllProper(f1);
  }

  /** SerializeToString: fails for messages of 2 GiB and more. */
  function RpcResponseToString(m: RpcResponse): Option<seq<byte>>
    requires ValidRpcResponse(m)
  {
    if SizeRpcResponse(m) < TWO_31 then Some(SerializeRpcResponse(m)) else None
  }

  /** ParseFromString: the message is cleared first. */
  function RpcResponseFromString(b: seq<byte>): Option<RpcResponse> {
    Parse(ApplyRpcResponse, b, EMPTY_RPC_RESPONSE)
  }

  /** Whatever can be serialised parses back to itself if its strings are UTF-8; otherwise it does not
      parse at all. */
  lemma RpcResponseRoundTrip(m: RpcResponse)
    requires ValidRpcResponse(m) && RpcResponseToString(m).Some?
    ensures RpcResponseFromString(RpcResponseToString(m).value) == if TextRpcResponse(m) then Some(m) else None
  {
    IntoRpcResponse(EMPTY_RPC_RESPONSE, m);
    MergeIntoEmptyRpcResponse(m);
    ParseMerges(ApplyRpcResponse, FieldsRpcResponse(m), [], EMPTY_RPC_RESPONSE,
                if TextRpcResponse(m) then Some(m) else None);
  }

  lemma MergeIntoEmptyRpcResponse(m: RpcResponse)
    ensures MergeRpcResponse(EMPTY_RPC_RESPONSE, m) == m
  {
    if m.payload.ListReply? {
      assert [] + m.payload.listing.files == m.payload.listing.files;
    } else if m.payload.MetaReply? && m.payload.meta.meta.Some? {
      assert MergeFileMeta(EMPTY_FILE_META, m.payload.meta.meta.value) == m.payload.meta.meta.value;
    }
  }

  /** Parsing one serialisation after another merges the second message into the first, or fails if a string
      of either is not UTF-8. */
  lemma RpcResponseConcatenationMerges(a: RpcResponse, b: RpcResponse)
    requires ValidRpcResponse(a) && ValidRpcResponse(b) && RpcResponseToString(a).Some? && RpcResponseToString(b).Some?
    ensures RpcResponseFromString(RpcResponseToString(a).value + RpcResponseToString(b).value) ==
            if TextRpcResponse(a) && TextRpcResponse(b) then Some(MergeRpcResponse(a, b)) else None
  {
    IntoRpcResponse(EMPTY_RPC_RESPONSE, a);
    MergeIntoEmptyRpcResponse(a);
    var first := if TextRpcResponse(a) then Some(a) else None;
    ParseMerges(ApplyRpcResponse, FieldsRpcResponse(a), SerializeRpcResponse(b), EMPTY_RPC_RESPONSE, first);
    IntoRpcResponse(a, b);
    ParseMerges(ApplyRpcResponse, FieldsRpcResponse(b), [], a,
                if TextRpcResponse(b) then Some(MergeRpcResponse(a, b)) else None);
  }

  /** What can be serialised: the messages that take fewer than 2^31 bytes. */
  lemma SerialisesIff(a: RpcRequest, b: RpcResponse)
    requires ValidRpcRequest(a) && ValidRpcResponse(b)
    ensures RpcRequestToString(a) ==
            if |SerializeRpcRequest(a)| < 0x8000_0000 then Some(SerializeRpcRequest(a)) else None
    ensures RpcResponseToString(b) ==
            if |SerializeRpcResponse(b)| < 0x8000_0000 then Some(SerializeRpcResponse(b)) else None
  {
    SizeIsLengthRpcRequest(a);
    SizeIsLengthRpcResponse(b);
  }

  // ---------- merging three messages ----------

  predicate SameCase(a: RequestPayload, b: RequestPayload) {
    (a.ListCall? && b.ListCall?) || (a.MetaCall? && b.MetaCall?)
  }

  /** c sets every field that a sets, so nothing of a is left when c is merged into it. */
  predicate SetsAllOf(c: RequestPayload, a: RequestPayload) {
    match (a, c)
    case (ListCall(x), ListCall(y)) => (x.directory != [] ==> y.directory != []) && (x.recursive ==> y.recursive)
    case (MetaCall(x), MetaCall(y)) => x.filePath != [] ==> y.filePath != []
    case _ => true
  }

  /** Three messages can be merged from either end with the same result unless all of this holds: the
      first and the last have the same case, the middle one has the other case and so clears the first,
      and the first sets a field that the last one leaves at its default. */
  lemma MergeAssociativeIff(a: RpcRequest, b: RpcRequest, c: RpcRequest)
    ensures
      var cleared := SameCase(a.payload, c.payload) && b.payload != NoRequest && !SameCase(a.payload, b.payload);
      MergeRpcRequest(MergeRpcRequest(a, b), c) == MergeRpcRequest(a, MergeRpcRequest(b, c))
      <==> !cleared || SetsAllOf(c.payload, a.payload)
  {
  }

  /** Such a triple: the first message asks for a recursive listing, the last one for a listing. */
  lemma MergeNotAssociative()
    ensures
      var a := RpcRequest(1, ListCall(ListFilesRequest([], true)));
      var b := RpcRequest(2, MetaCall(GetFileMetaRequest([])));
      var c := RpcRequest(1, ListCall(ListFilesRequest([], false)));
      && MergeRpcRequest(MergeRpcRequest(a, b), c) == c
      && MergeRpcRequest(a, MergeRpcRequest(b, c)) == a
      && a != c
  {
  }

  // ---------- merging three responses ----------

  predicate SameReply(a: ResponsePayload, b: ResponsePayload) {
    (a.ListReply? && b.ListReply?) || (a.MetaReply? && b.MetaReply?)
  }

  predicate MetaSetsAllOf(c: FileMeta, a: FileMeta) {
    && (a.name != [] ==> c.name != []) && (a.path != [] ==> c.path != []) && (a.md5 != [] ==> c.md5 != [])
    && (a.size != 0 ==> c.size != 0) && (a.mtime != 0 ==> c.mtime != 0) && (a.ctime != 0 ==> c.ctime != 0)
    && (a.mode != 0 ==> c.mode != 0)
    && (a.isDirectory ==> c.isDirectory) && (a.isPresent ==> c.isPresent)
  }

  /** c sets every field that a sets, and a lists no entries, so nothing of a is left
      when c is merged into it. */
  predicate ReplySetsAllOf(c: ResponsePayload, a: ResponsePayload) {
    match (a, c)
    case (ListReply(x), ListReply(y)) =>
      x.files == [] && (x.directory != [] ==> y.directory != []) && (x.totalCount != 0 ==> y.totalCount != 0)
    case (MetaReply(x), MetaReply(y)) =>
      && (x.success ==> y.success) && (x.error != [] ==> y.error != [])
      && (x.meta.Some? ==> y.meta.Some? && MetaSetsAllOf(y.meta.value, x.meta.value))
    case _ => true
  }

  lemma MetaMergeIsLast(a: FileMeta, c: FileMeta)
    ensures MergeFileMeta(a, c) == c <==> MetaSetsAllOf(c, a)
  {
  }

  lemma MetaMergeAssociative(a: FileMeta, b: FileMeta, c: FileMeta)
    ensures MergeFileMeta(MergeFileMeta(a, b), c) == MergeFileMeta(a, MergeFileMeta(b, c))
    ensures MergeFileMeta(EMPTY_FILE_META, c) == c
  {
  }

  lemma ReplyMergeIsLast(a: ResponsePayload, c: ResponsePayload)
    requires SameReply(a, c)
    ensures MergeResponsePayload(a, c) == c <==> ReplySetsAllOf(c, a)
  {
    if a.MetaReply? {
      if c.meta.meta.Some? {
        MetaMergeIsLast(MetaOrEmpty(a.meta), c.meta.meta.value);
      }
    } else if a.listing.files != [] {
      assert |a.listing.files + c.listing.files| != |c.listing.files|;
    } else {
      assert [] + c.listing.files == c.listing.files;
    }
  }

  lemma ListMergeAssociative(a: ListFilesResponse, b: ListFilesResponse, c: ListFilesResponse)
    ensures MergeListFilesResponse(MergeListFilesResponse(a, b), c) ==
            MergeListFilesResponse(a, MergeListFilesResponse(b, c))
    ensures MergeListFilesResponse(EMPTY_LIST_FILES_RESPONSE, c) == c
  {
    assert a.files + b.files + c.files == a.files + (b.files + c.files);
    assert [] + c.files == c.files;
  }

  lemma MetaReplyMergeAssociative(a: GetFileMetaResponse, b: GetFileMetaResponse, c: GetFileMetaResponse)
    ensures MergeGetFileMetaResponse(MergeGetFileMetaResponse(a, b), c) ==
            MergeGetFileMetaResponse(a, MergeGetFileMetaResponse(b, c))
    ensures MergeGetFileMetaResponse(EMPTY_GET_FILE_META_RESPONSE, c) == c
  {
    MetaMergeAssociative(MetaOrEmpty(a), MetaOrEmpty(b), MetaOrEmpty(c));
    MetaMergeAssociative(MetaOrEmpty(a), EMPTY_FILE_META, MetaOrEmpty(c));
    MetaMergeAssociative(MetaOrEmpty(a), EMPTY_FILE_META, MetaOrEmpty(b));
  }

  lemma ReplyMergeAssociativeIff(a: ResponsePayload, b: ResponsePayload, c: ResponsePayload)
    ensures
      var cleared := SameReply(a, c) && b != NoResponse && !SameReply(a, b);
      MergeResponsePayload(MergeResponsePayload(a, b), c) == MergeResponsePayload(a, MergeResponsePayload(b, c))
      <==> !cleared || ReplySetsAllOf(c, a)
  {
    ListMergeAssociative(ListReplyOf(a), ListReplyOf(b), ListReplyOf(c));
    MetaReplyMergeAssociative(MetaReplyOf(a), MetaReplyOf(b), MetaReplyOf(c));
    if SameReply(a, c) {
      ReplyMergeIsLast(a, c);
    }
  }

  /** The same for responses, with their repeated entries and nested metadata: three responses merge to the
      same from either end unless the first and the last have the same case, the middle one has the other
      and so clears the first, and the first lists an entry or sets a field that the last one leaves at its
      default. */
  lemma ResponseMergeAssociativeIff(a: RpcResponse, b: RpcResponse, c: RpcResponse)
    ensures
      var cleared := SameReply(a.payload, c.payload) && b.payload != NoResponse && !SameReply(a.payload, b.payload);
      MergeRpcResponse(MergeRpcResponse(a, b), c) == MergeRpcResponse(a, MergeRpcResponse(b, c))
      <==> !cleared || ReplySetsAllOf(c.payload, a.payload)
  {
    ReplyMergeAssociativeIff(a.payload, b.payload, c.payload);
  }
}
