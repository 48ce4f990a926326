/** The server's loops as the source writes them, run against a kernel that splits reads and writes
    and interrupts them as it likes. Each method is proved to do what SyncServer says, so none of that
    splitting is visible in the result. */
module SyncServerLoop {
  import opened Bytes
  import opened Results
  import opened FileTree
  import opened SyncWire
  import Spec = SyncServer

  /** What the kernel does out of the ordinary at one system call: EINTR, or a transfer of at most n + 1 bytes. */
  datatype Quirk = Interrupted | AtMost(n: nat)

  class Server {
    var tree: Tree
    var incoming: seq<byte>
    var ending: Spec.Ending
    var room: nat
    var quirks: seq<Quirk>
    var processedTasks: nat
    const base: Path

    constructor (tree: Tree, incoming: seq<byte>, ending: Spec.Ending, room: nat, quirks: seq<Quirk>, base: Path)
      ensures this.World() == Spec.World(tree, incoming, ending, room)
      ensures this.quirks == quirks && this.base == base && processedTasks == 0
    {
      this.tree, this.incoming, this.ending, this.room := tree, incoming, ending, room;
      this.quirks, this.base, this.processedTasks := quirks, base, 0;
    }

    function World(): Spec.World
      reads this
    {
      Spec.World(tree, incoming, ending, room)
    }

    /** The kernel decides how much of count it transfers; None stands for EINTR. */
    method Grant(count: nat) returns (n: Option<nat>)
      requires count > 0
      modifies this`quirks
      ensures n == None ==> |quirks| < |old(quirks)|
      ensures |quirks| <= |old(quirks)|
      ensures n.Some? ==> 1 <= n.value <= count
    {
      if quirks == [] {
        return Some(count);
      }
      var q := quirks[0];
      quirks := quirks[1..];
      match q
      case Interrupted => n := None;
      case AtMost(m) => n := Some(Min(m + 1, count));
    }

    method RobustRead(count: nat) returns (data: Option<seq<byte>>)
      modifies this`incoming, this`quirks
      ensures Spec.Got(data, World()) == Spec.RobustRead(old(World()), count)
    {
      var got: seq<byte> := [];
      while |got| < count
        invariant |got| <= count && |got| <= |old(incoming)|
        invariant got == old(incoming)[..|got|] && incoming == old(incoming)[|got|..]
        decreases count - |got| + |quirks|
      {
        var g := Grant(count - |got|);
        if g == None {
          continue;
        }
        if incoming == [] {
          if ending.Broken? {
            return None;
          }
          assert got == old(incoming);
          break;
        }
        var n := Min(g.value, |incoming|);
        ghost var was := got;
        got := got + incoming[..n];
        assert got == old(incoming)[..|was| + n];
        incoming := incoming[n..];
      }
      data := Some(got);
    }

    method ReceiveBytes(size: nat) returns (data: Option<seq<byte>>)
      modifies this`incoming, this`quirks
      ensures Spec.Got(data, World()) == Spec.ReceiveBytes(old(World()), size)
    {
      var got: seq<byte> := [];
      while |got| < size
        invariant |got| <= size && |got| <= |old(incoming)|
        invariant got == old(incoming)[..|got|] && incoming == old(incoming)[|got|..]
      {
        var n := RobustRead(size - |got|);
        if n == None || n == Some([]) {
          return None;
        }
        ghost var was := got;
        got := got + n.value;
        assert got == old(incoming)[..|was| + |n.value|];
      }
      data := Some(got);
    }

    /** Writes chunk to the open file at p, retrying short and interrupted writes. */
    method WriteAll(p: Path, chunk: seq<byte>) returns (ok: bool)
      requires IsFile(tree, p)
      modifies this`tree, this`room, this`quirks
      ensures Spec.Received(ok, World()) == Spec.AppendData(old(World()), p, chunk)
    {
      var written := 0;
      assert tree[p].data + chunk[..0] == tree[p].data;
      while written < |chunk|
        invariant 0 <= written <= |chunk| && written <= old(room) && room == old(room) - written
        invariant IsFile(tree, p) && tree == Spec.SetData(old(tree), p, old(tree)[p].data + chunk[..written])
        decreases |chunk| - written + |quirks|
      {
        var g := Grant(|chunk| - written);
        if g == None {
          continue;
        }
        if room == 0 {
          return false;
        }
        var n := Min(g.value, room);
        tree := Spec.SetData(tree, p, tree[p].data + chunk[written..written + n]);
        assert old(tree)[p].data + chunk[..written] + chunk[written..written + n]
            == old(tree)[p].data + chunk[..written + n];
        room, written := room - n, written + n;
      }
      ok := true;
    }

    method ReceiveFileData(p: Path, resume: int, size: int) returns (ok: bool)
      modifies this`tree, this`incoming, this`room, this`quirks
      ensures Spec.Received(ok, World()) == Spec.ReceiveFileData(old(World()), p, resume, size)
    {
      var opened_ := Spec.Open(tree, p, resume <= 0);
      if opened_ == None {
        return false;
      }
      tree := opened_.value;
      if resume > 0 && |tree[p].data| != resume {
        tree := Spec.SetData(tree, p, []);
        ok := ReceiveChunks(p, 0, size);
      } else {
        ok := ReceiveChunks(p, resume, size);
      }
    }

    /** The loop of receiveFileData. */
    method ReceiveChunks(p: Path, from: int, size: int) returns (ok: bool)
      requires IsFile(tree, p)
      modifies this`tree, this`incoming, this`room, this`quirks
      ensures Spec.Received(ok, World()) == Spec.ReceiveLoop(old(World()), p, from, size)
    {
      var received := from;
      ghost var goal := Spec.ReceiveLoop(World(), p, from, size);
      while received < size
        invariant IsFile(tree, p)
        invariant goal == Spec.ReceiveLoop(World(), p, received, size)
        decreases size - received
      {
        ghost var before := World();
        var n := RobustRead(Min(Spec.BUFFER_SIZE, size - received));
        if n == None || n == Some([]) {
          return false;
        }
        ghost var between := World();
        ok := WriteAll(p, n.value);
        if !ok {
          return;
        }
        Spec.ReceiveLoopGoesOn(before, p, received, size, n.value, between, World());
        received := received + |n.value|;
      }
      ok := true;
    }

    method ReceiveString() returns (s: Option<Path>)
      modifies this`incoming, this`quirks
      ensures match TakeString(old(incoming))
              case None => s == None && incoming == []
              case Some(r) => s == Some(r.value) && incoming == r.rest
    {
      var len := ReceiveBytes(8);
      if len == None {
        return None;
      }
      var chars := ReceiveBytes(LeValue(len.value));
      if chars == None {
        return None;
      }
      s := Some(CString(chars.value));
    }

    method ReceiveTaskRecord() returns (t: Option<TaskMeta>)
      modifies this`incoming, this`quirks
      ensures match DecodeTask(old(incoming))
              case None => t == None && incoming == []
              case Some(r) => t == Some(r.value) && incoming == r.rest
    {
      var kind := ReceiveBytes(4);
      if kind == None {
        return None;
      }
      var src := ReceiveString();
      if src == None {
        return None;
      }
      var dest := ReceiveString();
      if dest == None {
        return None;
      }
      var mode := ReceiveBytes(4);
      if mode == None {
        return None;
      }
      var isDir := DecodeSigned(kind.value) == 1;
      var meta := TaskMeta(isDir, src.value, dest.value, LeValue(mode.value), 0);
      assert DecodeHead(old(incoming)) == Some(Read(meta, incoming));
      if !isDir {
        var size := ReceiveBytes(8);
        if size == None {
          return None;
        }
        meta := meta.(size := DecodeSigned(size.value));
      }
      t := Some(meta);
    }

    /** One round of the metadata loop, after ts and with left tasks to go; whole is what it comes to. */
    method ReceiveNextRecord(ghost ts: seq<TaskMeta>, ghost left: int, ghost whole: Option<Read<seq<TaskMeta>>>)
      returns (t: Option<TaskMeta>)
      requires left > 0 && whole == Whole(DecodeTask, ts, incoming, left)
      modifies this`incoming, this`quirks
      ensures t == None ==> incoming == [] && whole == None
      ensures t.Some? ==> whole == Whole(DecodeTask, ts + [t.value], incoming, left - 1)
    {
      ghost var before := incoming;
      t := ReceiveTaskRecord();
      if t == None {
        WholeFails(DecodeTask, ts, before, left);
      } else {
        WholeAdvance(DecodeTask, ts, before, left, t.value, incoming);
      }
    }

    method ReceiveTaskMetadata(taskCount: int) returns (tasks: Option<seq<TaskMeta>>)
      modifies this`incoming, this`quirks
      ensures match DecodeTasks(old(incoming), taskCount)
              case None => tasks == None && incoming == []
              case Some(r) => tasks == Some(r.value) && incoming == r.rest
    {
      ghost var whole := DecodeTasks(incoming, taskCount);
      WholeAtFirst(DecodeTask, incoming, taskCount);
      ghost var left;
      tasks, left := ReceiveRecords(taskCount, whole);
      if tasks.Some? {
        WholeAtEnd(DecodeTask, tasks.value, incoming, left);
      }
    }

    /** The loop of receiveTaskMetadata; whole is what it has to come to. */
    method ReceiveRecords(taskCount: int, ghost whole: Option<Read<seq<TaskMeta>>>)
      returns (tasks: Option<seq<TaskMeta>>, ghost left: int)
      requires whole == Whole(DecodeTask, [], incoming, taskCount)
      modifies this`incoming, this`quirks
      ensures tasks == None ==> whole == None && incoming == []
      ensures tasks.Some? ==> left <= 0 && whole == Whole(DecodeTask, tasks.value, incoming, left)
    {
      var ts: seq<TaskMeta> := [];
      var i := 0;
      left := taskCount;
      ghost var now := Whole(DecodeTask, ts, incoming, left);
      while i < taskCount
        invariant i + left == taskCount
        invariant now == Whole(DecodeTask, ts, incoming, left) && now == whole
      {
        var t := ReceiveNextRecord(ts, left, now);
        if t == None {
          return None, left;
        }
        ts := ts + [t.value];
        i, left := i + 1, left - 1;
        now := Whole(DecodeTask, ts, incoming, left);
      }
      tasks := Some(ts);
    }

    method ReceiveTask(t: TaskMeta) returns (ok: bool)
      modifies this`tree, this`incoming, this`room, this`quirks
      ensures Spec.Received(ok, World()) == Spec.ReceiveTask(old(World()), base, t)
    {
      var p := base + t.dest;
      var offset := ReceiveBytes(8);
      if offset == None {
        return false;
      }
      if t.isDir {
        var m := CreateDirectoryByLevels(tree, p, t.mode);
        tree := m.tree;
        return m.ok;
      }
      var m := CreateDirectoryByLevels(tree, Parent(p), DEFAULT_DIR_MODE);
      tree := m.tree;
      if !m.ok {
        return false;
      }
      ok := ReceiveFileData(p, DecodeSigned(offset.value), t.size);
      if ok && IsFile(tree, p) {
        tree := tree[p := tree[p].(mode := t.mode)];
      }
    }

    method ReceiveTasks(ts: seq<TaskMeta>) returns (ok: bool)
      modifies this
      ensures
        var p := Spec.ReceiveTasks(old(World()), base, ts);
        p.ok == ok && p.world == World() && processedTasks == old(processedTasks) + p.done
    {
      var i := 0;
      ghost var left := ts;
      while i < |ts|
        invariant 0 <= i <= |ts| && left == ts[i..]
        invariant processedTasks == old(processedTasks) + i
        invariant
          var p := Spec.ReceiveTasks(World(), base, left);
          Spec.ReceiveTasks(old(World()), base, ts) == p.(done := p.done + i)
      {
        assert left[0] == ts[i];
        ok := ReceiveTask(ts[i]);
        if !ok {
          return;
        }
        processedTasks := processedTasks + 1;
        i, left := i + 1, left[1..];
      }
      ok := true;
    }

    /** What follows the mode byte in sync mode. */
    method HandleSync() returns (reply: Spec.Reply)
      modifies this
      ensures
        var s := Spec.HandleSync(old(World()), Spec.Receiver(base));
        s.reply == reply && s.world == World() && processedTasks == old(processedTasks) + s.processed
    {
      var count := ReceiveBytes(4);
      if count == None {
        return Spec.Nak;
      }
      var ts := ReceiveTaskMetadata(DecodeSigned(count.value));
      if ts == None {
        return Spec.Nak;
      }
      var ok := ReceiveTasks(ts.value);
      reply := if ok then Spec.Ack else Spec.Nak;
    }

    method HandleClient() returns (reply: Spec.Reply)
      modifies this
      ensures
        var s := Spec.HandleClient(old(World()), base);
        s.reply == reply && s.world == World() && processedTasks == old(processedTasks) + s.processed
    {
      var mode := ReceiveBytes(1);
      if mode == None {
        return Spec.Closed;
      }
      if mode.value == [1] {
        return Spec.Rpc;
      }
      if mode.value != [0] {
        return Spec.Closed;
      }
      reply := HandleSync();
    }
  }
}
