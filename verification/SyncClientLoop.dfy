/** The client's loops as the source writes them: partial sends and block-wise file sending. */
module SyncClientLoop {
  import opened Bytes
  import opened ProgressRecord
  import Network
  import Spec = SyncClient

  class Client {
    var sent: seq<byte>
    var connected: bool
    var accept: nat
    /** How many bytes, less one, the kernel takes at each coming send(2). */
    var quirks: seq<nat>
    var records: Spec.Records

    constructor (accept: nat, quirks: seq<nat>, records: Spec.Records)
      ensures Net() == Network.Net([], true, accept) && this.quirks == quirks && this.records == records
    {
      sent, connected, this.accept, this.quirks, this.records := [], true, accept, quirks, records;
    }

    function Net(): Network.Net
      reads this
    {
      Network.Net(sent, connected, accept)
    }

    /** TcpClient::send. */
    method Send(data: seq<byte>) returns (ok: bool)
      modifies this`sent, this`connected, this`accept, this`quirks
      ensures Net() == Network.Send(old(Net()), data)
      ensures ok == connected
    {
      if !connected {
        return false;
      }
      var total := 0;
      assert sent + data[..0] == sent;
      while total < |data|
        invariant 0 <= total <= |data| && total <= old(accept)
        invariant connected && accept == old(accept) - total && sent == old(sent) + data[..total]
      {
        if accept == 0 {
          connected := false;
          return false;
        }
        var n := Min(|data| - total, accept);
        if quirks != [] {
          n := Min(n, quirks[0] + 1);
          quirks := quirks[1..];
        }
        sent := sent + data[total..total + n];
        assert data[..total] + data[total..total + n] == data[..total + n];
        accept, total := accept - n, total + n;
      }
      assert data[..total] == data;
      ok := true;
    }

    /** sendFileSync: the record is saved after every block and removed at the end. */
    method SendFileSync(dest: Path, content: seq<byte>, resumeOffset: nat) returns (ok: bool)
      modifies this
      ensures Spec.Sending(ok, Net(), records) == Spec.SendFrom(old(Net()), old(records), dest, content, resumeOffset)
    {
      var transferred := resumeOffset;
      while transferred < |content|
        invariant Spec.SendFrom(Net(), records, dest, content, transferred)
               == Spec.SendFrom(old(Net()), old(records), dest, content, resumeOffset)
      {
        var n := Min(Spec.BLOCK_SIZE, |content| - transferred);
        ok := Send(content[transferred..transferred + n]);
        if !ok {
          records := records[dest := Record(transferred, |content|)];
          return;
        }
        transferred := transferred + n;
        records := records[dest := Record(transferred, |content|)];
      }
      records := records - {dest};
      ok := true;
    }

    method SendAll(parts: seq<seq<byte>>)
      modifies this`sent, this`connected, this`accept, this`quirks
      ensures Net() == Spec.SendMany(old(Net()), parts)
    {
      var i := 0;
      while i < |parts|
        invariant 0 <= i <= |parts|
        invariant Spec.SendMany(Net(), parts[i..]) == Spec.SendMany(old(Net()), parts)
      {
        var _ := Send(parts[i]);
        assert parts[i..][1..] == parts[i + 1..];
        i := i + 1;
      }
    }

    /** syncRemote up to the wait for the acknowledgement: metadata first, then offsets and file bytes. */
    method SyncRemote(sources: seq<Spec.Source>, resume: bool) returns (ok: bool)
      requires forall s :: s in sources ==> Spec.ValidSource(s)
      modifies this
      ensures Spec.Sending(ok, Net(), records) == Spec.SyncRemote(old(Net()), old(records), sources, resume)
    {
      Widths();
      ok := Send([0]);
      ok := Send(EncodeSigned(WrapInt32(|sources|), 4));
      var header := Spec.HeaderSends(sources);
      SendAll(header);
      ok := SendTasks(sources, resume);
    }

    /** The second loop of syncRemote. */
    method SendTasks(sources: seq<Spec.Source>, resume: bool) returns (ok: bool)
      requires forall s :: s in sources ==> Spec.ValidSource(s)
      modifies this
      ensures Spec.Sending(ok, Net(), records) == Spec.SendTasks(old(Net()), old(records), sources, resume)
    {
      var i := 0;
      ghost var left := sources;
      while i < |sources|
        invariant 0 <= i <= |sources| && left == sources[i..] && forall s :: s in left ==> Spec.ValidSource(s)
        invariant Spec.SendTasks(Net(), records, left, resume) ==
                  Spec.SendTasks(old(Net()), old(records), sources, resume)
      {
        var s := sources[i];
        assert left[0] == s && s in left;
        ok := SendTask(s, resume);
        if !ok {
          return;
        }
        i, left := i + 1, left[1..];
      }
      ok := true;
    }

    method SendTask(s: Spec.Source, resume: bool) returns (ok: bool)
      requires Spec.ValidSource(s)
      modifies this
      ensures Spec.Sending(ok, Net(), records) == Spec.SendTask(old(Net()), old(records), s, resume)
    {
      var offset := Spec.ResumeOffset(records, s, resume);
      var _ := Send(EncodeSigned(offset, 8));
      if s.meta.isDir {
        return true;
      }
      ok := SendFileSync(s.meta.dest, s.content, offset);
    }
  }
}
