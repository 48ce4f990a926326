/** The RPC connection: frames of type, length and payload around the messages, the server's dispatch
    loop and the client's calls. */
module RpcService {
  import opened Bytes
  import opened Results
  import opened ProtoWire
  import opened ProtoMessages
  import opened ProtoRpc

  const RPC_LIST_FILES: int := 1
  const RPC_GET_FILE_META: int := 2

  const PROCESSING_FAILED: seq<byte> := Text("processing failed")
  const UNKNOWN_TYPE: seq<byte> := Text("unknown RPC type")

  // ---------- frames ----------

  function Frame(rpcType: int, payload: seq<byte>): seq<byte>
    requires IsInt32(rpcType) && |payload| < TWO_31
  {
    Widths();
    EncodeSigned(rpcType, 4) + (LeBytes(|payload|, 4) + payload)
  }

  /** The payload of the next frame; an empty payload is rejected, and the type in the header is read
      but not used. */
  function ReadFrame(b: seq<byte>): (r: Option<Read<seq<byte>>>)
    ensures r.Some? ==> |r.value.rest| < |b| && r.value.value != []
  {
    var header :- Take(b, 4);
    var len :- Take(header.rest, 4);
    if LeValue(len.value) == 0 then None else Take(len.rest, LeValue(len.value))
  }

  /** What is left of the stream when no payload is returned: an empty payload ends with its header, and a
      frame that is cut takes all there is. */
  function AfterBadFrame(b: seq<byte>): seq<byte> {
    if |b| >= 8 && LeValue(b[4..8]) == 0 then b[8..] else []
  }

  lemma FrameRoundTrip(rpcType: int, payload: seq<byte>, rest: seq<byte>)
    requires IsInt32(rpcType) && 0 < |payload| < TWO_31
    ensures ReadFrame(Frame(rpcType, payload) + rest) == Some(Read(payload, rest))
  {
    Widths();
    var header := EncodeSigned(rpcType, 4);
    var len := LeBytes(|payload|, 4);
    assert Frame(rpcType, payload) + rest == header + (len + (payload + rest));
    TakeFront(header, len + (payload + rest));
    TakeFront(len, payload + rest);
    LeRoundTrip(|payload|, 4);
    TakeFront(payload, rest);
  }

  // ---------- the server ----------

  /** What the handlers answer to the i-th request: the file system may change between requests. Listing
      fails when the directory is missing or is not one; asking for metadata always succeeds. */
  datatype Handlers = Handlers(
    list: (nat, ListFilesRequest) -> Option<ListFilesResponse>,
    meta: (nat, GetFileMetaRequest) -> GetFileMetaResponse)

  function Handle(h: Handlers, i: nat, req: RpcRequest): RpcResponse {
    if req.rpcType == RPC_LIST_FILES then
      match h.list(i, ListCallOf(req.payload))
      case None => RpcResponse(req.rpcType, false, PROCESSING_FAILED, NoResponse)
      case Some(r) => RpcResponse(req.rpcType, true, [], ListReply(r))
    else if req.rpcType == RPC_GET_FILE_META then
      RpcResponse(req.rpcType, true, [], MetaReply(h.meta(i, MetaCallOf(req.payload))))
    else RpcResponse(req.rpcType, false, UNKNOWN_TYPE, NoResponse)
  }

  /** The next request, if it can be received and parsed. */
  function ReadRequest(b: seq<byte>): (r: Option<Read<RpcRequest>>)
    ensures r.Some? ==> |r.value.rest| < |b|
  {
    var f :- ReadFrame(b);
    var req :- RpcRequestFromString(f.value);
    Some(Read(req, f.rest))
  }

  /** The handlers answer with messages whose fields are in the ranges of their types; that their strings
      are UTF-8 is not asked. */
  ghost predicate Sane(h: Handlers) {
    && (forall i, r :: h.list(i, r).Some? ==> ValidListFilesResponse(h.list(i, r).value))
    && (forall i, r :: ValidGetFileMetaResponse(h.meta(i, r)))
  }

  /** What handleRpcClient sends in answer to b: one frame per request, until a request cannot be read or
      a response cannot be serialised. */
  function Serve(h: Handlers, i: nat, b: seq<byte>): seq<byte>
    decreases |b|
  {
    match ReadRequest(b)
    case None => []
    case Some(req) =>
      var resp := Handle(h, i, req.value);
      if !ValidRpcResponse(resp) then []
      else
        match RpcResponseToString(resp)
        case None => []
        case Some(s) => SizeIsLengthRpcResponse(resp); Frame(resp.rpcType, s) + Serve(h, i + 1, req.rest)
  }

  lemma ServeStops(h: Handlers, i: nat, b: seq<byte>)
    requires
      match ReadRequest(b)
      case None => true
      case Some(req) =>
        var resp := Handle(h, i, req.value);
        !ValidRpcResponse(resp) || RpcResponseToString(resp) == None
    ensures Serve(h, i, b) == []
  {
  }

  /** One request answered. */
  lemma ServeGoesOn(h: Handlers, i: nat, b: seq<byte>)
    requires ReadRequest(b).Some?
    requires
      var resp := Handle(h, i, ReadRequest(b).value.value);
      ValidRpcResponse(resp) && RpcResponseToString(resp).Some?
    ensures
      var req := ReadRequest(b).value;
      var resp := Handle(h, i, req.value);
      && |RpcResponseToString(resp).value| < TWO_31
      && Serve(h, i, b) == Frame(resp.rpcType, RpcResponseToString(resp).value) + Serve(h, i + 1, req.rest)
  {
    SizeIsLengthRpcResponse(Handle(h, i, ReadRequest(b).value.value));
  }

  predicate Ascii(s: seq<byte>) {
    forall i :: 0 <= i < |s| ==> s[i] < 128
  }

  lemma {:induction false} AsciiIsUtf8(s: seq<byte>)
    requires Ascii(s)
    ensures Utf8(s)
  {
    if s != [] {
      AsciiIsUtf8(s[1..]);
    }
  }

  lemma ErrorTextsAscii()
    ensures Ascii(PROCESSING_FAILED) && |PROCESSING_FAILED| == 17
    ensures Ascii(UNKNOWN_TYPE) && |UNKNOWN_TYPE| == 16
  {
  }

  lemma ErrorTexts()
    ensures Utf8(PROCESSING_FAILED) && IsString(PROCESSING_FAILED) && PROCESSING_FAILED != []
    ensures Utf8(UNKNOWN_TYPE) && IsString(UNKNOWN_TYPE) && UNKNOWN_TYPE != []
  {
    ErrorTextsAscii();
    AsciiIsUtf8(PROCESSING_FAILED);
    AsciiIsUtf8(UNKNOWN_TYPE);
  }

  /** A response carries the request's type and the payload case of that type on success; it is either a
      success or carries an error text that is UTF-8, so its serialisation is never empty. */
  lemma ResponseShape(h: Handlers, i: nat, req: RpcRequest)
    requires Sane(h) && IsInt32(req.rpcType)
    ensures
      var resp := Handle(h, i, req);
      && ValidRpcResponse(resp) && resp.rpcType == req.rpcType
      && (resp.success ==> (if req.rpcType == 1 then resp.payload.ListReply?
                            else req.rpcType == 2 && resp.payload.MetaReply?))
      && (!resp.success ==> resp.error != [] && resp.payload == NoResponse && TextRpcResponse(resp))
      && SerializeRpcResponse(resp) != []
  {
    ErrorTexts();
    NotEmpty(Handle(h, i, req));
  }

  lemma NotEmpty(resp: RpcResponse)
    requires ValidRpcResponse(resp) && (resp.success || resp.error != [])
    ensures SerializeRpcResponse(resp) != []
  {
    SizeIsLengthRpcResponse(resp);
  }

  /** A property that every field keeps holds of whatever a parse returns. */
  lemma {:induction false} ParseKeeps<M>(apply: (M, Field) -> Option<M>, holds: M -> bool, b: seq<byte>, m: M)
    requires holds(m) && forall x, f :: holds(x) && apply(x, f).Some? ==> holds(apply(x, f).value)
    ensures Parse(apply, b, m).Some? ==> holds(Parse(apply, b, m).value)
    decreases |b|
  {
    if b != [] && ReadField(b).Some? {
      var f := ReadField(b).value;
      if apply(m, f.value).Some? {
        ParseKeeps(apply, holds, f.rest, apply(m, f.value).value);
      }
    }
  }

  predicate TypeInRange(req: RpcRequest) {
    IsInt32(req.rpcType)
  }

  /** Whatever bytes the server accepts as a request, the response it would send is valid and not empty,
      so no client ever rejects a response as empty. */
  lemma AnyRequestGetsNonEmptyResponse(h: Handlers, i: nat, b: seq<byte>)
    requires Sane(h) && RpcRequestFromString(b).Some?
    ensures
      var resp := Handle(h, i, RpcRequestFromString(b).value);
      ValidRpcResponse(resp) && SerializeRpcResponse(resp) != []
  {
    ParseKeeps(ApplyRpcRequest, TypeInRange, b, EMPTY_RPC_REQUEST);
    ResponseShape(h, i, RpcRequestFromString(b).value);
  }

  // ---------- the client ----------

  datatype Call = ListFiles(directory: seq<byte>, recursive: bool) | GetFileMeta(path: seq<byte>)

  function Request(c: Call): RpcRequest {
    match c
    case ListFiles(d, r) => RpcRequest(RPC_LIST_FILES, ListCall(ListFilesRequest(d, r)))
    case GetFileMeta(p) => RpcRequest(RPC_GET_FILE_META, MetaCall(GetFileMetaRequest(p)))
  }

  /** The request is below the 2 GiB limit of the serialiser; its path may be any bytes. */
  ghost predicate Sendable(c: Call) {
    ValidRpcRequest(Request(c)) && RpcRequestToString(Request(c)).Some?
  }

  function RequestFrame(c: Call): seq<byte>
    requires Sendable(c)
  {
    SizeIsLengthRpcRequest(Request(c));
    Frame(Request(c).rpcType, RpcRequestToString(Request(c)).value)
  }

  function RequestFrames(calls: seq<Call>): seq<byte>
    requires forall c :: c in calls ==> Sendable(c)
  {
    if calls == [] then [] else RequestFrame(calls[0]) + RequestFrames(calls[1..])
  }

  /** What sendRequest makes of the next response frame. */
  function ReadResponse(b: seq<byte>): Option<Read<RpcResponse>> {
    var f :- ReadFrame(b);
    var resp :- RpcResponseFromString(f.value);
    Some(Read(resp, f.rest))
  }

  function ReadResponses(b: seq<byte>, n: nat): Option<Read<seq<RpcResponse>>> {
    if n == 0 then Some(Read([], b))
    else
      var first :- ReadResponse(b);
      var others :- ReadResponses(first.rest, n - 1);
      Some(Read([first.value] + others.value, others.rest))
  }

  /** The responses that the handlers give to the calls, in order. */
  function Answers(h: Handlers, i: nat, calls: seq<Call>): (r: seq<RpcResponse>)
    ensures |r| == |calls|
    ensures forall k :: 0 <= k < |calls| ==> r[k] == Handle(h, i + k, Request(calls[k]))
  {
    seq(|calls|, k requires 0 <= k < |calls| => Handle(h, i + k, Request(calls[k])))
  }

  /** The server answers the call: the request passes its parser's UTF-8 check and the response is below
      the 2 GiB limit of the serialiser. */
  predicate Answered(h: Handlers, i: nat, c: Call) {
    && TextRpcRequest(Request(c))
    && ValidRpcResponse(Handle(h, i, Request(c))) && RpcResponseToString(Handle(h, i, Request(c))).Some?
  }

  /** The response passes the check of the client's parser. */
  predicate Readable(h: Handlers, i: nat, c: Call) {
    TextRpcResponse(Handle(h, i, Request(c)))
  }

  predicate AllReadable(h: Handlers, i: nat, calls: seq<Call>)
    decreases |calls|
  {
    calls == [] || (Answered(h, i, calls[0]) && Readable(h, i, calls[0]) && AllReadable(h, i + 1, calls[1..]))
  }

  lemma RequestArrives(c: Call, rest: seq<byte>)
    requires Sendable(c)
    ensures ReadFrame(RequestFrame(c) + rest) == Some(Read(SerializeRpcRequest(Request(c)), rest))
    ensures RpcRequestFromString(SerializeRpcRequest(Request(c))) ==
            if TextRpcRequest(Request(c)) then Some(Request(c)) else None
  {
    var req := Request(c);
    SizeIsLengthRpcRequest(req);
    assert SizeRpcRequest(req) > 0;
    FrameRoundTrip(req.rpcType, SerializeRpcRequest(req), rest);
    RpcRequestRoundTrip(req);
  }

  lemma ResponseArrives(resp: RpcResponse, rest: seq<byte>)
    requires ValidRpcResponse(resp) && RpcResponseToString(resp).Some? && SerializeRpcResponse(resp) != []
    ensures |SerializeRpcResponse(resp)| < TWO_31
    ensures ReadFrame(Frame(resp.rpcType, SerializeRpcResponse(resp)) + rest) ==
            Some(Read(SerializeRpcResponse(resp), rest))
    ensures RpcResponseFromString(SerializeRpcResponse(resp)) == if TextRpcResponse(resp) then Some(resp) else None
  {
    SizeIsLengthRpcResponse(resp);
    FrameRoundTrip(resp.rpcType, SerializeRpcResponse(resp), rest);
    RpcResponseRoundTrip(resp);
  }

  lemma ServeOne(h: Handlers, i: nat, c: Call, rest: seq<byte>)
    requires Sane(h) && Sendable(c)
    requires Answered(h, i, c)
    ensures |SerializeRpcResponse(Handle(h, i, Request(c)))| < TWO_31
    ensures
      var resp := Handle(h, i, Request(c));
      Serve(h, i, RequestFrame(c) + rest) == Frame(resp.rpcType, SerializeRpcResponse(resp)) + Serve(h, i + 1, rest)
  {
    RequestArrives(c, rest);
    SizeIsLengthRpcResponse(Handle(h, i, Request(c)));
  }

  /** A call that the server does not answer makes it close the connection. */
  lemma ServeNoMore(h: Handlers, i: nat, c: Call, rest: seq<byte>)
    requires Sendable(c) && !Answered(h, i, c)
    ensures Serve(h, i, RequestFrame(c) + rest) == []
  {
    RequestArrives(c, rest);
    ServeStops(h, i, RequestFrame(c) + rest);
  }

  /** Over any sequence of calls on one connection, if all strings are UTF-8 and no message is too large: the
      client reads back exactly one response per call, in order, each the handlers' answer to that call,
      and nothing is left over. In particular no frame
      in either direction is rejected for an empty payload. */
  lemma {:induction false} Conversation(h: Handlers, i: nat, calls: seq<Call>)
    requires Sane(h) && (forall c :: c in calls ==> Sendable(c)) && AllReadable(h, i, calls)
    ensures ReadResponses(Serve(h, i, RequestFrames(calls)), |calls|) == Some(Read(Answers(h, i, calls), []))
    decreases |calls|
  {
    if calls == [] {
      assert Serve(h, i, []) == [];
    } else {
      assert calls[0] in calls;
      Conversation(h, i + 1, calls[1..]);
      ConversationStep(h, i, calls);
    }
  }

  lemma ConversationStep(h: Handlers, i: nat, calls: seq<Call>)
    requires Sane(h) && calls != [] && (forall c :: c in calls ==> Sendable(c))
    requires Answered(h, i, calls[0]) && Readable(h, i, calls[0])
    requires
      ReadResponses(Serve(h, i + 1, RequestFrames(calls[1..])), |calls[1..]|) ==
        Some(Read(Answers(h, i + 1, calls[1..]), []))
    ensures ReadResponses(Serve(h, i, RequestFrames(calls)), |calls|) == Some(Read(Answers(h, i, calls), []))
  {
    var c, tail, n := calls[0], RequestFrames(calls[1..]), |calls[1..]|;
    assert c in calls;
    var b, resp := Serve(h, i, RequestFrame(c) + tail), Handle(h, i, Request(c));
    FirstAnswerRead(h, i, c, tail);
    ReadResponsesFirst(b, n, resp, Serve(h, i + 1, tail));
    AnswersCons(h, i, calls);
    assert Serve(h, i, RequestFrames(calls)) == b && |calls| == n + 1;
  }

  lemma ReadResponsesFirst(b: seq<byte>, n: nat, first: RpcResponse, rest: seq<byte>)
    requires ReadResponse(b) == Some(Read(first, rest)) && ReadResponses(rest, n).Some?
    ensures
      var others := ReadResponses(rest, n).value;
      ReadResponses(b, n + 1) == Some(Read([first] + others.value, others.rest))
  {
  }

  lemma FirstAnswerRead(h: Handlers, i: nat, c: Call, rest: seq<byte>)
    requires Sane(h) && Sendable(c)
    requires Answered(h, i, c)
    ensures
      var resp, b := Handle(h, i, Request(c)), Serve(h, i, RequestFrame(c) + rest);
      && ReadFrame(b) == Some(Read(SerializeRpcResponse(resp), Serve(h, i + 1, rest)))
      && RpcResponseFromString(SerializeRpcResponse(resp)) == if Readable(h, i, c) then Some(resp) else None
  {
    ServeOne(h, i, c, rest);
    ResponseShape(h, i, Request(c));
    ResponseArrives(Handle(h, i, Request(c)), Serve(h, i + 1, rest));
  }

  lemma AnswersCons(h: Handlers, i: nat, calls: seq<Call>)
    requires calls != []
    ensures Answers(h, i, calls) == [Handle(h, i, Request(calls[0]))] + Answers(h, i + 1, calls[1..])
  {
    var all, tail := Answers(h, i, calls), Answers(h, i + 1, calls[1..]);
    assert all[0] == Handle(h, i + 0, Request(calls[0]));
    forall k | 0 < k < |calls|
      ensures all[k] == tail[k - 1]
    {
      assert calls[1..][k - 1] == calls[k] && i + 1 + (k - 1) == i + k;
    }
  }

  /** What a call returns: the response it hands to its caller, or false. */
  datatype Outcome = Listed(listing: Option<ListFilesResponse>) | Described(meta: Option<GetFileMetaResponse>)

  /** listFiles and getFileMeta as functions of the bytes received from the server; the response is handed
      on only when it reports success and has the payload of the call. */
  function Answer(c: Call, b: seq<byte>): Read<Outcome> {
    match ReadFrame(b)
    case None => Read(Refused(c), AfterBadFrame(b))
    case Some(f) =>
      match RpcResponseFromString(f.value)
      case None => Read(Refused(c), f.rest)
      case Some(resp) => Read(Accept(c, resp), f.rest)
  }

  /** A response without payload is refused and costs no more than its header: the next call reads on behind it. */
  lemma EmptyResponseRefused(c: Call, rpcType: int, rest: seq<byte>)
    requires IsInt32(rpcType)
    ensures Answer(c, Frame(rpcType, []) + rest) == Read(if c.ListFiles? then Listed(None) else Described(None), rest)
  {
    Widths();
    var header := EncodeSigned(rpcType, 4);
    var b := Frame(rpcType, []) + rest;
    assert b == header + (LeBytes(0, 4) + rest);
    TakeFront(header, LeBytes(0, 4) + rest);
    TakeFront(LeBytes(0, 4), rest);
    LeRoundTrip(0, 4);
    assert b[4..8] == LeBytes(0, 4);
  }

  /** Whatever response arrives, the client hands it on if and only if all its strings are UTF-8, it reports
      success, and it has the payload that was asked for. */
  lemma HandedOnIff(c: Call, resp: RpcResponse, rest: seq<byte>)
    requires ValidRpcResponse(resp) && RpcResponseToString(resp).Some? && SerializeRpcResponse(resp) != []
    ensures |SerializeRpcResponse(resp)| < TWO_31
    ensures
      Answer(c, Frame(resp.rpcType, SerializeRpcResponse(resp)) + rest) ==
      match c
      case ListFiles(_, _) =>
        Read(Listed(if TextRpcResponse(resp) && resp.success && resp.payload.ListReply?
                    then Some(resp.payload.listing) else None), rest)
      case GetFileMeta(_) =>
        Read(Described(if TextRpcResponse(resp) && resp.success && resp.payload.MetaReply?
                       then Some(resp.payload.meta) else None), rest)
  {
    ResponseArrives(resp, rest);
  }

  /** A response that is cut takes whatever there is with it. */
  lemma CutResponseRefused(c: Call, rpcType: int, payload: seq<byte>, k: nat)
    requires IsInt32(rpcType) && 0 < |payload| < TWO_31 && k < |Frame(rpcType, payload)|
    ensures Answer(c, Frame(rpcType, payload)[..k]) == Read(Refused(c), [])
  {
    Widths();
    var header, len := EncodeSigned(rpcType, 4), LeBytes(|payload|, 4);
    var b := Frame(rpcType, payload)[..k];
    LeRoundTrip(|payload|, 4);
    if k >= 8 {
      assert b[..4] == header && b[4..][..4] == len && b[4..8] == len;
    }
  }

  function Refused(c: Call): Outcome {
    if c.ListFiles? then Listed(None) else Described(None)
  }

  function Accept(c: Call, resp: RpcResponse): Outcome {
    if c.ListFiles? then Listed(if resp.success && resp.payload.ListReply? then Some(resp.payload.listing) else None)
    else Described(if resp.success && resp.payload.MetaReply? then Some(resp.payload.meta) else None)
  }

  /** The results of the calls made one after the other on one connection. */
  function Outcomes(calls: seq<Call>, b: seq<byte>): seq<Outcome>
    decreases |calls|
  {
    if calls == [] then []
    else
      var r := Answer(calls[0], b);
      [r.value] + Outcomes(calls[1..], r.rest)
  }

  /** What the handlers have to say to the calls, in order. */
  function HandlersResult(h: Handlers, i: nat, c: Call): Outcome {
    match c
    case ListFiles(d, r) => Listed(h.list(i, ListFilesRequest(d, r)))
    case GetFileMeta(p) => Described(Some(h.meta(i, GetFileMetaRequest(p))))
  }

  lemma AcceptsHandlersAnswer(h: Handlers, i: nat, c: Call)
    ensures Accept(c, Handle(h, i, Request(c))) == HandlersResult(h, i, c)
  {
  }

  lemma FirstOutcome(h: Handlers, i: nat, c: Call, rest: seq<byte>)
    requires Sane(h) && Sendable(c) && Answered(h, i, c)
    ensures
      Answer(c, Serve(h, i, RequestFrame(c) + rest)) ==
      Read(if Readable(h, i, c) then HandlersResult(h, i, c) else Refused(c), Serve(h, i + 1, rest))
  {
    FirstAnswerRead(h, i, c, rest);
    AcceptsHandlersAnswer(h, i, c);
  }

  /** What the calls return: one that the server does not answer, and every call after it, returns false; an
      answered one returns what the handler says if the response is UTF-8, and false if it is not. */
  function CallResults(h: Handlers, i: nat, calls: seq<Call>): (rs: seq<Outcome>)
    ensures |rs| == |calls|
    decreases |calls|
  {
    if calls == [] then []
    else if !Answered(h, i, calls[0]) then AllRefused(calls)
    else
      [if Readable(h, i, calls[0]) then HandlersResult(h, i, calls[0]) else Refused(calls[0])] +
      CallResults(h, i + 1, calls[1..])
  }

  function AllRefused(calls: seq<Call>): (rs: seq<Outcome>)
    ensures |rs| == |calls|
    ensures forall k :: 0 <= k < |calls| ==> rs[k] == Refused(calls[k])
  {
    seq(|calls|, k requires 0 <= k < |calls| => Refused(calls[k]))
  }

  predicate AnsweredAt(h: Handlers, i: nat, calls: seq<Call>, j: nat)
    requires j < |calls|
  {
    Answered(h, i + j, calls[j])
  }

  predicate ReadableAt(h: Handlers, i: nat, calls: seq<Call>, j: nat)
    requires j < |calls|
  {
    Readable(h, i + j, calls[j])
  }

  lemma SecondIsFirst(h: Handlers, i: nat, calls: seq<Call>, j: nat)
    requires 0 < j < |calls|
    ensures AnsweredAt(h, i + 1, calls[1..], j - 1) == AnsweredAt(h, i, calls, j)
    ensures ReadableAt(h, i + 1, calls[1..], j - 1) == ReadableAt(h, i, calls, j)
    ensures HandlersResult(h, i + 1 + (j - 1), calls[1..][j - 1]) == HandlersResult(h, i + j, calls[j])
  {
    assert i + 1 + (j - 1) == i + j && calls[1..][j - 1] == calls[j];
  }

  predicate AnsweredUpTo(h: Handlers, i: nat, calls: seq<Call>, k: nat)
    requires k < |calls|
  {
    forall j :: 0 <= j <= k ==> AnsweredAt(h, i, calls, j)
  }

  lemma AnsweredUpToNext(h: Handlers, i: nat, calls: seq<Call>, k: nat)
    requires 0 < k < |calls|
    ensures AnsweredUpTo(h, i, calls, k) <==> AnsweredAt(h, i, calls, 0) && AnsweredUpTo(h, i + 1, calls[1..], k - 1)
  {
    forall j | 0 < j <= k
      ensures AnsweredAt(h, i + 1, calls[1..], j - 1) == AnsweredAt(h, i, calls, j)
    {
      SecondIsFirst(h, i, calls, j);
    }
    var tail, next := calls[1..], i + 1;
    if AnsweredUpTo(h, i, calls, k) {
      forall j | 0 <= j <= k - 1
        ensures AnsweredAt(h, next, tail, j)
      {
        SecondIsFirst(h, i, calls, j + 1);
      }
    }
  }

  lemma CallResultsFirst(h: Handlers, i: nat, calls: seq<Call>)
    requires calls != []
    ensures
      CallResults(h, i, calls) ==
      if AnsweredAt(h, i, calls, 0) then [ResultAt(h, i, calls, 0)] + CallResults(h, i + 1, calls[1..])
      else AllRefused(calls)
  {
    assert AnsweredAt(h, i, calls, 0) == Answered(h, i, calls[0]);
    assert ReadableAt(h, i, calls, 0) == Readable(h, i, calls[0]);
    assert AnsweredUpTo(h, i, calls, 0) == AnsweredAt(h, i, calls, 0);
  }

  /** What the k-th call returns: what its handler says if all calls up to it are answered and its
      response is UTF-8, and otherwise false. */
  function ResultAt(h: Handlers, i: nat, calls: seq<Call>, k: nat): Outcome
    requires k < |calls|
  {
    if AnsweredUpTo(h, i, calls, k) && ReadableAt(h, i, calls, k) then HandlersResult(h, i + k, calls[k])
    else Refused(calls[k])
  }

  lemma ResultAtNext(h: Handlers, i: nat, calls: seq<Call>, k: nat)
    requires 0 < k < |calls|
    ensures
      ResultAt(h, i, calls, k) ==
      if AnsweredAt(h, i, calls, 0) then ResultAt(h, i + 1, calls[1..], k - 1) else Refused(calls[k])
  {
    AnsweredUpToNext(h, i, calls, k);
    SecondIsFirst(h, i, calls, k);
  }

  lemma {:induction false} HandlersResultAt(h: Handlers, i: nat, calls: seq<Call>, k: nat)
    requires k < |calls|
    ensures CallResults(h, i, calls)[k] == ResultAt(h, i, calls, k)
    decreases k
  {
    CallResultsFirst(h, i, calls);
    assert !AnsweredAt(h, i, calls, 0) ==> !AnsweredUpTo(h, i, calls, k);
    if k > 0 {
      ResultAtNext(h, i, calls, k);
      HandlersResultAt(h, i + 1, calls[1..], k - 1);
    }
  }

  lemma {:induction false} NothingReceived(calls: seq<Call>)
    ensures Outcomes(calls, []) == AllRefused(calls)
    decreases |calls|
  {
    if calls != [] {
      assert Answer(calls[0], []) == Read(Refused(calls[0]), []);
      NothingReceived(calls[1..]);
    }
  }

  /** Over any sequence of calls on one connection, through frames, serialisers and parsers in both
      directions, with any bytes as paths and any handlers: the calls return exactly CallResults. */
  lemma {:induction false} CallsReturnHandlersAnswers(h: Handlers, i: nat, calls: seq<Call>)
    requires Sane(h) && (forall c :: c in calls ==> Sendable(c))
    ensures Outcomes(calls, Serve(h, i, RequestFrames(calls))) == CallResults(h, i, calls)
    decreases |calls|
  {
    if calls != [] {
      var c, tail := calls[0], RequestFrames(calls[1..]);
      assert c in calls;
      if Answered(h, i, c) {
        CallsReturnHandlersAnswers(h, i + 1, calls[1..]);
        FirstOutcome(h, i, c, tail);
      } else {
        ServeNoMore(h, i, c, tail);
        NothingReceived(calls);
      }
    }
  }
}
