/** The RPC server's end of a connection: the loops over recv(2) and send(2) and the request loop. */
module RpcLoop {
  import opened Bytes
  import opened Results
  import opened ProtoWire
  import opened ProtoRpc
  import Network
  import Spec = RpcService

  class Server {
    var incoming: seq<byte>
    var sent: seq<byte>
    var connected: bool
    /** How many more bytes can be sent before send(2) fails. */
    var accept: nat
    /** What the kernel does at the coming calls: 0 interrupts the call, n grants at most n bytes. After
        that every call is granted in full. */
    var quirks: seq<nat>

    constructor (incoming: seq<byte>, accept: nat, quirks: seq<nat>)
      ensures this.incoming == incoming && Net() == Network.Net([], true, accept) && this.quirks == quirks
    {
      this.incoming, sent, connected, this.accept, this.quirks := incoming, [], true, accept, quirks;
    }

    /** The sending half of the connection. */
    function Net(): Network.Net
      reads this
    {
      Network.Net(sent, connected, accept)
    }

    /** How many of count bytes the next call may move; none when it is interrupted. */
    method Grant(count: nat) returns (n: nat)
      modifies this`quirks
      ensures n <= count && |quirks| <= |old(quirks)|
      ensures count > 0 && n == 0 ==> |quirks| < |old(quirks)|
    {
      if quirks == [] {
        return count;
      }
      n := Min(count, quirks[0]);
      quirks := quirks[1..];
    }

    method RecvAll(size: nat) returns (data: Option<seq<byte>>)
      modifies this`incoming, this`quirks
      ensures match Take(old(incoming), size)
              case None => data == None && incoming == []
              case Some(r) => data == Some(r.value) && incoming == r.rest
    {
      var got: seq<byte> := [];
      while |got| < size
        invariant |got| <= size && got + incoming == old(incoming)
        decreases size - |got|, |quirks|
      {
        var n := Grant(size - |got|);
        if n > 0 {
          if incoming == [] {
            return None;
          }
          n := Min(n, |incoming|);
          got, incoming := got + incoming[..n], incoming[n..];
        }
      }
      data := Some(got);
    }

    method SendAll(data: seq<byte>) returns (ok: bool)
      requires connected
      modifies this`sent, this`connected, this`accept, this`quirks
      ensures Net() == Network.Send(old(Net()), data)
      ensures ok == connected
    {
      var total := 0;
      assert sent + data[..0] == sent;
      while total < |data|
        invariant 0 <= total <= |data| && total <= old(accept)
        invariant connected && accept == old(accept) - total && sent == old(sent) + data[..total]
        decreases |data| - total, |quirks|
      {
        var n := Grant(|data| - total);
        if n > 0 {
          if accept == 0 {
            connected := false;
            return false;
          }
          n := Min(n, accept);
          assert data[..total] + data[total..total + n] == data[..total + n];
          sent, accept, total := sent + data[total..total + n], accept - n, total + n;
        }
      }
      assert data[..total] == data;
      ok := true;
    }

    method ReceiveRequest() returns (request: Option<RpcRequest>)
      modifies this`incoming, this`quirks
      ensures match Spec.ReadRequest(old(incoming))
              case None => request == None
              case Some(r) => request == Some(r.value) && incoming == r.rest
    {
      var header := RecvAll(4);
      if header == None {
        return None;
      }
      var len := RecvAll(4);
      if len == None || LeValue(len.value) == 0 {
        return None;
      }
      var payload := RecvAll(LeValue(len.value));
      if payload == None {
        return None;
      }
      assert Spec.ReadFrame(old(incoming)) == Some(Read(payload.value, incoming));
      request := RpcRequestFromString(payload.value);
    }

    method SendFrame(rpcType: int, payload: seq<byte>) returns (ok: bool)
      requires IsInt32(rpcType) && |payload| < TWO_31 && connected
      modifies this`sent, this`connected, this`accept, this`quirks
      ensures Net() == Network.Send(old(Net()), Spec.Frame(rpcType, payload))
      ensures ok == connected
    {
      Widths();
      ghost var len := LeBytes(|payload|, 4);
      Network.SendTwice(Network.Send(Net(), EncodeSigned(rpcType, 4)), len, payload);
      Network.SendTwice(Net(), EncodeSigned(rpcType, 4), len + payload);
      ok := SendAll(EncodeSigned(rpcType, 4));
      if ok {
        ok := SendAll(LeBytes(|payload|, 4));
      }
      if ok {
        ok := SendAll(payload);
      }
    }

    /** handleRpcClient: requests are answered until one cannot be read, a response cannot be serialised or
        the network fails. It returns true exactly when not even one request was read. */
    method HandleRpcClient(h: Spec.Handlers) returns (result: bool)
      requires connected
      modifies this
      ensures Net() == Network.Send(old(Net()), Spec.Serve(h, 0, old(incoming)))
      ensures result <==> Spec.ReadRequest(old(incoming)) == None
    {
      var firstRequest, i := true, 0;
      ghost var done := Network.Send(Net(), Spec.Serve(h, 0, incoming));
      while true
        invariant connected && Network.Send(Net(), Spec.Serve(h, i, incoming)) == done
        invariant firstRequest ==> incoming == old(incoming)
        invariant !firstRequest ==> Spec.ReadRequest(old(incoming)).Some?
        decreases |incoming|
      {
        ghost var before := incoming;
        var request := ReceiveRequest();
        if request == None {
          Spec.ServeStops(h, i, before);
          Network.SendNothing(Net());
          return firstRequest;
        }
        firstRequest := false;
        var response := Spec.Handle(h, i, request.value);
        var serialized := if ValidRpcResponse(response) then RpcResponseToString(response) else None;
        if serialized == None {
          Spec.ServeStops(h, i, before);
          Network.SendNothing(Net());
          return false;
        }
        Spec.ServeGoesOn(h, i, before);
        Network.SendTwice(Net(), Spec.Frame(response.rpcType, serialized.value), Spec.Serve(h, i + 1, incoming));
        var ok := SendFrame(response.rpcType, serialized.value);
        if !ok {
          return false;
        }
        i := i + 1;
      }
    }
  }
}
