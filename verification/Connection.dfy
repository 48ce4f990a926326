/** A connection from its first byte to its last: the mode byte leads to a synchronisation or to the RPC server,
    and what comes back decides what the client's call returns. */
module Connection {
  import opened Bytes
  import opened Results
  import opened FileTree
  import opened Network
  import opened SyncServer
  import opened SyncSession
  import opened SyncClient
  import opened SyncRuns
  import Rpc = RpcService
  import RpcLoop
  import ServerLoop = SyncServerLoop
  import ClientLoop = SyncClientLoop

  const ACK: seq<byte> := Text("ACK")
  const NAK: seq<byte> := Text("NAK")

  /** The byte that RpcClient::connect sends. */
  const RPC_MODE: byte := 1

  // ---------- the server ----------

  /** What handleClient returns, what it has sent, and the files and the task counter afterwards. */
  datatype Handled = Handled(ok: bool, net: Net, tree: Tree, processed: nat)

  /** sendAck; the two other outcomes send nothing here. */
  function AnswerTo(reply: Reply): seq<byte> {
    match reply
    case Ack => ACK
    case Nak => NAK
    case Closed => []
    case Rpc => []
  }

  function HandleConnection(w: World, n: Net, base: Path, h: Rpc.Handlers): Handled {
    var s := HandleClient(w, base);
    if s.reply == Reply.Rpc then
      Handled(Rpc.ReadRequest(s.world.bytes) == None, Send(n, Rpc.Serve(h, 0, s.world.bytes)),
              s.world.tree, s.processed)
    else Handled(s.reply == Ack, Send(n, AnswerTo(s.reply)), s.world.tree, s.processed)
  }

  /** The same with the server's own loops, on a network that takes accept bytes. */
  method Serve(server: ServerLoop.Server, h: Rpc.Handlers, accept: nat, quirks: seq<nat>)
    returns (ok: bool, sent: seq<byte>)
    modifies server
    ensures
      var r := HandleConnection(old(server.World()), Net([], true, accept), server.base, h);
      && ok == r.ok && sent == r.net.sent && server.tree == r.tree
      && server.processedTasks == old(server.processedTasks) + r.processed
  {
    var reply := server.HandleClient();
    if reply == Reply.Rpc {
      var rpc := new RpcLoop.Server(server.incoming, accept, quirks);
      ok := rpc.HandleRpcClient(h);
      sent := rpc.sent;
    } else {
      var out := new RpcLoop.Server([], accept, quirks);
      var _ := out.SendAll(AnswerTo(reply));
      ok, sent := reply == Ack, out.sent;
    }
  }

  /** What the first byte makes of a connection: behind a 1 the RPC server answers the remaining bytes and no
      file changes; behind a 0 the answer is one of the two texts, and handleClient returns true exactly
      with the first; otherwise nothing is sent and nothing changes. */
  lemma FirstByteDecides(w: World, n: Net, base: Path, h: Rpc.Handlers)
    ensures
      var r := HandleConnection(w, n, base, h);
      if w.bytes == [] || w.bytes[0] > 1 then r == Handled(false, n, w.tree, 0)
      else if w.bytes[0] == 1 then
        r == Handled(Rpc.ReadRequest(w.bytes[1..]) == None, Send(n, Rpc.Serve(h, 0, w.bytes[1..])), w.tree, 0)
      else r.net == Send(n, if r.ok then ACK else NAK)
  {
    ModeByteDecides(w, base);
    SendNothing(n);
  }

  /** RpcClient's connection as a whole: its mode byte and any calls behind it, on a network that takes the
      responses; the calls return what CallResults says, and the server's files stay as they are. */
  lemma RpcConnection(t: Tree, ending: Ending, room: nat, accept: nat, base: Path, h: Rpc.Handlers,
                      calls: seq<Rpc.Call>)
    requires Rpc.Sane(h) && (forall c :: c in calls ==> Rpc.Sendable(c))
    requires accept >= |Rpc.Serve(h, 0, Rpc.RequestFrames(calls))|
    ensures
      var w := World(t, [RPC_MODE] + Rpc.RequestFrames(calls), ending, room);
      var r := HandleConnection(w, Net([], true, accept), base, h);
      && r.tree == t && r.processed == 0
      && Rpc.Outcomes(calls, r.net.sent) == Rpc.CallResults(h, 0, calls)
  {
    var frames := Rpc.RequestFrames(calls);
    var w := World(t, [RPC_MODE] + frames, ending, room);
    FirstByteDecides(w, Net([], true, accept), base, h);
    assert w.bytes[1..] == frames;
    assert [] + Rpc.Serve(h, 0, frames) == Rpc.Serve(h, 0, frames);
    Rpc.CallsReturnHandlersAnswers(h, 0, calls);
  }

  // ---------- the client ----------

  /** The end of syncRemote, where reply is what one recv(2) with room for three bytes returns. */
  function Accepts(s: Sending, reply: seq<byte>): bool {
    s.ok && s.net.connected && reply == ACK
  }

  method SyncRemote(client: ClientLoop.Client, sources: seq<Source>, resume: bool, reply: seq<byte>) returns (ok: bool)
    requires forall s :: s in sources ==> ValidSource(s)
    modifies client
    ensures
      var s := SyncClient.SyncRemote(old(client.Net()), old(client.records), sources, resume);
      ok == Accepts(s, reply) && client.Net() == s.net && client.records == s.records
  {
    ok := client.SyncRemote(sources, resume);
    if !ok || !client.connected {
      return false;
    }
    ok := reply == ACK;
  }

  /** The first got bytes of what the server sends, as far as there are so many. */
  function Arriving(reply: Reply, got: nat): seq<byte> {
    AnswerTo(reply)[..Min(got, |AnswerTo(reply)|)]
  }

  /** What syncRemote returns for a visit of which the client receives got bytes in answer. */
  function SyncReturns(st: State, v: Visit, base: Path, got: nat): bool
    requires Proper(v)
  {
    Accepts(SyncClient.SyncRemote(Net([], true, v.accept), st.records, v.sources, v.resume),
            Arriving(Visiting(st, v, base).reply, got))
  }

  lemma AnswersDiffer(reply: Reply, got: nat)
    ensures Arriving(reply, got) == ACK <==> reply == Ack && got >= 3
  {
    assert ACK != [] && |ACK| == 3 && ACK[0] == 65 && NAK[0] == 78;
  }

  /** Any visit at all: syncRemote returns true if and only if the network takes the whole session, the server
      acknowledges it, and the three bytes of the answer come back at once. */
  lemma TrueIffAcknowledged(st: State, v: Visit, base: Path, got: nat)
    requires Proper(v)
    ensures forall j :: j in JobsOf(st, v) ==> ValidJob(j)
    ensures SyncReturns(st, v, base, got) <==>
            v.accept >= |Stream(JobsOf(st, v))| && Visiting(st, v, base).reply == Ack && got >= 3
  {
    JobsValid(st.records, v.sources, v.resume);
    AnswersDiffer(Visiting(st, v, base).reply, got);
    ClientSendsStream(Net([], true, v.accept), st.records, v.sources, v.resume);
    if v.accept >= |Stream(JobsOf(st, v))| {
      AllIsSent(st, v);
    }
  }

  /** A visit to sound files that meets no mismatch: syncRemote returns true if and only if every byte is taken,
      delivered and written and the three bytes of the answer come back at once; and then every file of the
      visit equals its source. */
  lemma SyncReturnsTrueIff(g: Target, st: State, v: Visit, got: nat)
    requires Serves(g, st, v) && Sound(g, st.tree) && NoMismatch(g, st, v)
    ensures forall j :: j in JobsOf(st, v) ==> ValidJob(j)
    ensures
      var js := JobsOf(st, v);
      && (SyncReturns(st, v, g.base, got) <==>
            v.accept >= |Stream(js)| && v.delivered >= |Stream(js)| && v.room >= RoomForAll(js) && got >= 3)
      && (SyncReturns(st, v, g.base, got) ==> AllDone(Visiting(st, v, g.base).state.tree, g.base, js))
  {
    VisitOutcome(g, st, v);
    TrueIffAcknowledged(st, v, g.base, got);
  }

  lemma AllIsSent(st: State, v: Visit)
    requires Proper(v) && (forall j :: j in JobsOf(st, v) ==> ValidJob(j)) && v.accept >= |Stream(JobsOf(st, v))|
    ensures
      var s := SyncClient.SyncRemote(Net([], true, v.accept), st.records, v.sources, v.resume);
      s.ok && s.net.connected
  {
    var js, n := JobsOf(st, v), Net([], true, v.accept);
    ClientSendsStream(n, st.records, v.sources, v.resume);
    SendingSucceedsIff(n, st.records, v.sources, v.resume);
    forall i | 0 <= i < |js| && HasData(js[i])
      ensures HeaderSize(js) + |Payloads(js[..i + 1])| <= v.accept
    {
      PayloadsFront(js, i + 1);
    }
  }

  lemma {:induction false} PayloadsFront(js: seq<Job>, i: nat)
    requires i <= |js| && forall j :: j in js ==> ValidJob(j)
    ensures |Payloads(js[..i])| <= |Payloads(js)|
    decreases i
  {
    if i > 0 {
      FrontPayloads(js, i);
      PayloadsFront(js[1..], i - 1);
    }
  }
}
