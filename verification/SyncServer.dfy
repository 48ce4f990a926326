/** What the server does with one client connection, as a function of the bytes that reach it.
    How the kernel splits those bytes over reads and writes does not appear here: SyncServerLoop shows
    that it has no effect. */
module SyncServer {
  import opened Bytes
  import opened Results
  import opened FileTree
  import opened SyncWire

  /** How a connection ends once its last byte has been delivered. */
  datatype Ending = Eof | Broken

  /** The server's surroundings: its files, the bytes still to arrive, and the number of bytes the disk
      accepts before write(2) fails. */
  datatype World = World(tree: Tree, bytes: seq<byte>, ending: Ending, room: nat)

  datatype Got = Got(data: Option<seq<byte>>, world: World)

  datatype Received = Received(ok: bool, world: World)

  datatype Reply = Ack | Nak | Closed | Rpc

  datatype Session = Session(reply: Reply, tasks: seq<TaskMeta>, processed: nat, world: World)

  const BUFFER_SIZE: nat := 64 * 1024

  /** robustRead: all of count when it arrives; otherwise what is left at end of file, or None (-1)
      when the connection breaks, in which case the bytes already read are lost. */
  function RobustRead(w: World, count: nat): Got {
    if |w.bytes| >= count then Got(Some(w.bytes[..count]), w.(bytes := w.bytes[count..]))
    else Got(if w.ending.Eof? then Some(w.bytes) else None, w.(bytes := []))
  }

  /** receiveBytes: all of size or nothing. */
  function ReceiveBytes(w: World, size: nat): Got {
    if |w.bytes| >= size then Got(Some(w.bytes[..size]), w.(bytes := w.bytes[size..]))
    else Got(None, w.(bytes := []))
  }

  function SetData(t: Tree, p: Path, data: seq<byte>): Tree
    requires IsFile(t, p)
  {
    t[p := t[p].(data := data)]
  }

  /** Appends chunk to the open file at p, as far as the disk has room. */
  function AppendData(w: World, p: Path, chunk: seq<byte>): (r: Received)
    requires IsFile(w.tree, p)
    ensures IsFile(r.world.tree, p) && r.world.ending == w.ending && r.world.bytes == w.bytes
  {
    var n := Min(|chunk|, w.room);
    Received(n == |chunk|, w.(tree := SetData(w.tree, p, w.tree[p].data + chunk[..n]), room := w.room - n))
  }

  /** The receive loop of receiveFileData. */
  function ReceiveLoop(w: World, p: Path, received: int, size: int): Received
    requires IsFile(w.tree, p)
    decreases size - received
  {
    if received >= size then Received(true, w)
    else
      var g := RobustRead(w, Min(BUFFER_SIZE, size - received));
      if g.data == None || g.data == Some([]) then Received(false, g.world)
      else
        var a := AppendData(g.world, p, g.data.value);
        if a.ok then ReceiveLoop(a.world, p, received + |g.data.value|, size) else a
  }

  lemma ReceiveLoopGoesOn(w: World, p: Path, received: int, size: int, chunk: seq<byte>, w1: World, w2: World)
    requires IsFile(w.tree, p) && received < size && chunk != []
    requires RobustRead(w, Min(BUFFER_SIZE, size - received)) == Got(Some(chunk), w1)
    requires AppendData(w1, p, chunk) == Received(true, w2)
    ensures ReceiveLoop(w, p, received, size) == ReceiveLoop(w2, p, received + |chunk|, size)
  {
  }

  /** open(2) with O_WRONLY | O_CREAT, and O_TRUNC when asked. */
  function Open(t: Tree, p: Path, truncate: bool): (r: Option<Tree>)
    ensures r.Some? ==> IsFile(r.value, p)
  {
    var up := Parent(p);
    if p in t then
      if t[p].Dir? then None else if truncate then Some(SetData(t, p, [])) else Some(t)
    else if p == [] || (up != [] && (up !in t || t[up].File?)) then None
    else Some(t[p := File([], DEFAULT_FILE_MODE)])
  }

  /** A positive resume offset that differs from the current length restarts the file from nothing. */
  function ReceiveFileData(w: World, p: Path, resume: int, size: int): Received {
    match Open(w.tree, p, resume <= 0)
    case None => Received(false, w)
    case Some(t) =>
      if resume > 0 && |t[p].data| != resume then ReceiveLoop(w.(tree := SetData(t, p, [])), p, 0, size)
      else ReceiveLoop(w.(tree := t), p, resume, size)
  }

  function ReceiveDirectory(w: World, p: Path, mode: nat): Received {
    var m := CreateDirectory(w.tree, p, mode);
    Received(m.ok, w.(tree := m.tree))
  }

  function ReceiveFile(w: World, p: Path, t: TaskMeta, resume: int): Received {
    var m := CreateDirectory(w.tree, Parent(p), DEFAULT_DIR_MODE);
    if !m.ok then Received(false, w.(tree := m.tree))
    else
      var r := ReceiveFileData(w.(tree := m.tree), p, resume, t.size);
      if r.ok && IsFile(r.world.tree, p)
      then Received(true, r.world.(tree := r.world.tree[p := r.world.tree[p].(mode := t.mode)]))
      else r
  }

  function ReceiveTask(w: World, base: Path, t: TaskMeta): Received {
    var g := ReceiveBytes(w, 8);
    if g.data == None then Received(false, g.world)
    else if t.isDir then ReceiveDirectory(g.world, base + t.dest, t.mode)
    else ReceiveFile(g.world, base + t.dest, t, DecodeSigned(g.data.value))
  }

  datatype Progress = Progress(done: nat, ok: bool, world: World)

  function ReceiveTasks(w: World, base: Path, ts: seq<TaskMeta>): Progress
    decreases |ts|
  {
    if ts == [] then Progress(0, true, w)
    else
      var r := ReceiveTask(w, base, ts[0]);
      if !r.ok then Progress(0, false, r.world)
      else
        var p := ReceiveTasks(r.world, base, ts[1..]);
        p.(done := p.done + 1)
  }

  /** The task loop, as the continuation of the parts that come before it. */
  function Receiver(base: Path): (World, seq<TaskMeta>) -> Progress {
    (w, ts) => ReceiveTasks(w, base, ts)
  }

  /** The part of handleClient that follows the mode byte in sync mode. */
  function HandleSync(w: World, receive: (World, seq<TaskMeta>) -> Progress): Session {
    var count := ReceiveBytes(w, 4);
    if count.data == None then Session(Nak, [], 0, count.world)
    else
      match DecodeTasks(count.world.bytes, DecodeSigned(count.data.value))
      case None => Session(Nak, [], 0, w.(bytes := []))
      case Some(ts) => AfterMetadata(w.(bytes := ts.rest), receive, ts.value)
  }

  function AfterMetadata(w: World, receive: (World, seq<TaskMeta>) -> Progress, ts: seq<TaskMeta>): Session {
    var p := receive(w, ts);
    Session(if p.ok then Ack else Nak, ts, p.done, p.world)
  }

  function HandleModes(w: World, receive: (World, seq<TaskMeta>) -> Progress): Session {
    var mode := ReceiveBytes(w, 1);
    if mode.data == None then Session(Closed, [], 0, mode.world)
    else if mode.data.value == [1] then Session(Rpc, [], 0, mode.world)
    else if mode.data.value != [0] then Session(Closed, [], 0, mode.world)
    else HandleSync(mode.world, receive)
  }

  function HandleClient(w: World, base: Path): Session {
    HandleModes(w, Receiver(base))
  }

  // ---------- the mode byte ----------

  /** What the first byte of a connection decides: 1 is for the RPC server, 0 for a synchronisation, and any
      other byte, or none, closes the connection. Outside a synchronisation no task is processed, no file
      changes and no byte but that one is consumed. */
  lemma ModeByteDecides(w: World, base: Path)
    ensures
      var s := HandleClient(w, base);
      && (s.reply == Rpc <==> w.bytes != [] && w.bytes[0] == 1)
      && (s.reply == Ack || s.reply == Nak <==> w.bytes != [] && w.bytes[0] == 0)
      && (s.reply == Closed <==> w.bytes == [] || w.bytes[0] > 1)
      && (s.reply == Rpc || s.reply == Closed ==>
            s == Session(s.reply, [], 0, w.(bytes := if w.bytes == [] then [] else w.bytes[1..])))
  {
    if w.bytes != [] {
      assert w.bytes[..1] == [w.bytes[0]];
    }
  }

  // ---------- the receive loop in closed form ----------

  function Need(received: int, size: int): nat {
    if size > received then size - received else 0
  }

  /** r is what becomes of w when need more bytes are wanted for the file at p: success exactly when
      they arrive and fit, and then exactly they are appended; otherwise what was appended is a
      proper beginning of them, and all that arrived if the connection was closed in order. */
  ghost predicate Appended(w: World, r: Received, p: Path, need: nat) {
    && IsFile(w.tree, p)
    && IsFile(r.world.tree, p)
    && r.world.ending == w.ending
    && (r.ok <==> |w.bytes| >= need && w.room >= need)
    && (r.ok ==> r.world == w.(tree := SetData(w.tree, p, w.tree[p].data + w.bytes[..need]),
                               bytes := w.bytes[need..], room := w.room - need))
    && (!r.ok ==>
          && |r.world.tree[p].data| < |w.tree[p].data| + need
          && w.tree[p].data <= r.world.tree[p].data <= w.tree[p].data + w.bytes
          && r.world.tree == SetData(w.tree, p, r.world.tree[p].data)
          && (w.ending.Eof? && w.room >= |w.bytes| ==> r.world.tree[p].data == w.tree[p].data + w.bytes))
  }

  lemma AppendedNothing(w: World, p: Path)
    requires IsFile(w.tree, p)
    ensures Appended(w, Received(true, w), p, 0)
  {
    var data := w.tree[p].data;
    assert w.bytes[..0] == [] && data + [] == data && w.bytes[0..] == w.bytes;
    assert SetData(w.tree, p, data) == w.tree;
  }

  lemma AppendedCut(w: World, p: Path, need: nat)
    requires IsFile(w.tree, p) && |w.bytes| < need && (w.bytes == [] || w.ending.Broken?)
    ensures Appended(w, Received(false, w.(bytes := [])), p, need)
  {
    assert w.tree[p].data + [] == w.tree[p].data;
    assert SetData(w.tree, p, w.tree[p].data) == w.tree;
  }

  /** n bytes of w appended. */
  function After(w: World, p: Path, n: nat): World
    requires IsFile(w.tree, p) && n <= |w.bytes| && n <= w.room
  {
    w.(tree := SetData(w.tree, p, w.tree[p].data + w.bytes[..n]), bytes := w.bytes[n..], room := w.room - n)
  }

  lemma AppendedInTwo(w: World, r: Received, p: Path, n: nat, m: nat, need: nat)
    requires IsFile(w.tree, p) && n <= |w.bytes| && n <= w.room && n + m == need
    requires Appended(After(w, p, n), r, p, m)
    ensures Appended(w, r, p, need)
  {
    var data := w.tree[p].data;
    assert data + w.bytes[..n] + w.bytes[n..] == data + w.bytes;
    if r.ok {
      assert (data + w.bytes[..n]) + w.bytes[n..][..m] == data + w.bytes[..need];
      assert w.bytes[n..][m..] == w.bytes[need..];
    }
  }

  /** The size of the next chunk; nothing when a broken connection loses it. */
  function NextChunk(w: World, need: nat): (n: nat)
    ensures n <= |w.bytes| && n <= need
  {
    var count := Min(BUFFER_SIZE, need);
    if |w.bytes| >= count then count else if w.ending.Eof? then |w.bytes| else 0
  }

  lemma LoopUnfolds(w: World, p: Path, received: int, size: int)
    requires IsFile(w.tree, p) && received < size
    ensures
      var n := NextChunk(w, size - received);
      var r := ReceiveLoop(w, p, received, size);
      && (n == 0 ==> r == Received(false, w.(bytes := [])))
      && (0 < n && w.room < n ==> r == DiskFull(w, p, n))
      && (0 < n <= w.room ==> r == ReceiveLoop(After(w, p, n), p, received + n, size))
  {
    var n := NextChunk(w, size - received);
    if 0 < n {
      ReadChunk(w, size - received);
      assert w.bytes[..n][..n] == w.bytes[..n];
    }
  }

  lemma ReadChunk(w: World, need: nat)
    requires NextChunk(w, need) > 0
    ensures
      var n := NextChunk(w, need);
      RobustRead(w, Min(BUFFER_SIZE, need)) == Got(Some(w.bytes[..n]), w.(bytes := w.bytes[n..]))
  {
    assert w.bytes[..|w.bytes|] == w.bytes && w.bytes[|w.bytes|..] == [];
  }

  /** The disk is full before n more bytes are written. */
  function DiskFull(w: World, p: Path, n: nat): Received
    requires IsFile(w.tree, p) && w.room < n <= |w.bytes|
  {
    Received(false,
      w.(tree := SetData(w.tree, p, w.tree[p].data + w.bytes[..n][..w.room]), bytes := w.bytes[n..], room := 0))
  }

  lemma AppendedFull(w: World, p: Path, n: nat, need: nat)
    requires IsFile(w.tree, p) && w.room < n <= |w.bytes| && n <= need
    ensures Appended(w, DiskFull(w, p, n), p, need)
  {
    assert w.bytes[..n][..w.room] == w.bytes[..w.room];
  }

  lemma {:induction false} ReceiveLoopResult(w: World, p: Path, received: int, size: int)
    requires IsFile(w.tree, p)
    ensures Appended(w, ReceiveLoop(w, p, received, size), p, Need(received, size))
    decreases size - received
  {
    var need := Need(received, size);
    if need == 0 {
      AppendedNothing(w, p);
    } else {
      var n := NextChunk(w, need);
      LoopUnfolds(w, p, received, size);
      if n == 0 {
        AppendedCut(w, p, need);
      } else if w.room < n {
        AppendedFull(w, p, n, need);
      } else {
        ReceiveLoopResult(After(w, p, n), p, received + n, size);
        AppendedInTwo(w, ReceiveLoop(After(w, p, n), p, received + n, size), p, n, Need(received + n, size), need);
      }
    }
  }
}
