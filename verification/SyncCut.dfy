/** What a session of any length leaves for the next one: how long the server's files are and what the
    client has recorded, when the network may stop taking bytes, lose some of those it took and break, and
    the disk may fill up. */
module SyncCut {
  import opened Bytes
  import opened Results
  import opened FileTree
  import opened SyncWire
  import opened SyncServer
  import opened SyncSession
  import opened SyncRestart
  import opened Network
  import opened SyncClient
  import opened SyncRuns
  import opened ProgressRecord

  // ---------- what the server keeps of a file ----------

  /** The whole chunks among n bytes. */
  function WholeChunks(n: nat): (r: nat)
    ensures r <= n
  {
    if n < BUFFER_SIZE then 0 else BUFFER_SIZE + WholeChunks(n - BUFFER_SIZE)
  }

  /** Of the bytes that arrive, fewer than the file still needs, those that end up in it: a connection that
      breaks loses the chunk being read. */
  function Kept(arrived: nat, ending: Ending, room: nat): (n: nat)
    ensures n <= arrived && n <= room
  {
    Min(room, if ending.Eof? then arrived else WholeChunks(arrived))
  }

  /** Of a broken connection, the bytes beyond the last whole 64 KiB are lost. */
  lemma {:induction false} WholeChunksIs(n: nat)
    ensures WholeChunks(n) == n - n % 65_536
  {
    if n >= BUFFER_SIZE {
      WholeChunksIs(n - BUFFER_SIZE);
      assert n % BUFFER_SIZE == (n - BUFFER_SIZE) % BUFFER_SIZE;
    }
  }

  lemma KeptOneChunk(arrived: nat, ending: Ending, room: nat, n: nat)
    requires n <= arrived && n <= room && (n == BUFFER_SIZE || (ending.Eof? && n < BUFFER_SIZE))
    ensures Kept(arrived, ending, room) == n + Kept(arrived - n, ending, room - n)
  {
  }

  /** The receive loop when less arrives than it wants. */
  lemma {:induction false} LoopKeeps(w: World, p: Path, received: int, size: int)
    requires IsFile(w.tree, p) && received + |w.bytes| < size
    ensures
      var r := ReceiveLoop(w, p, received, size);
      && !r.ok
      && r.world.tree == SetData(w.tree, p, w.tree[p].data + w.bytes[..Kept(|w.bytes|, w.ending, w.room)])
    decreases size - received
  {
    var n := FirstChunk(w, p, received, size);
    if n == 0 {
      AppendingNothing(w, p);
    } else if w.room < n {
      assert w.bytes[..n][..w.room] == w.bytes[..w.room];
    } else {
      var w' := After(w, p, n);
      LoopKeeps(w', p, received + n, size);
      LoopKeepsMore(w, p, n, ReceiveLoop(w', p, received + n, size).world.tree);
    }
  }

  /** What the loop does with its first chunk, and what that contributes. */
  lemma FirstChunk(w: World, p: Path, received: int, size: int) returns (n: nat)
    requires IsFile(w.tree, p) && received + |w.bytes| < size
    ensures n <= |w.bytes|
    ensures
      var r, kept := ReceiveLoop(w, p, received, size), Kept(|w.bytes|, w.ending, w.room);
      && (n == 0 ==> r == Received(false, w.(bytes := [])) && kept == 0)
      && (0 < n && w.room < n ==> r == DiskFull(w, p, n) && kept == w.room)
      && (0 < n <= w.room ==> && r == ReceiveLoop(After(w, p, n), p, received + n, size)
                              && kept == n + Kept(|w.bytes| - n, w.ending, w.room - n))
  {
    n := NextChunk(w, size - received);
    LoopUnfolds(w, p, received, size);
    ChunkKept(w, size - received);
  }

  /** What the next chunk contributes. */
  lemma ChunkKept(w: World, need: nat)
    requires |w.bytes| < need
    ensures
      var n, kept := NextChunk(w, need), Kept(|w.bytes|, w.ending, w.room);
      && (n == 0 ==> kept == 0)
      && (w.room < n ==> kept == w.room)
      && (0 < n <= w.room ==> kept == n + Kept(|w.bytes| - n, w.ending, w.room - n))
  {
    var n := NextChunk(w, need);
    if 0 < n <= w.room {
      KeptOneChunk(|w.bytes|, w.ending, w.room, n);
    }
  }

  lemma LoopKeepsMore(w: World, p: Path, n: nat, t: Tree)
    requires IsFile(w.tree, p) && n <= |w.bytes| && n <= w.room
    requires Kept(|w.bytes|, w.ending, w.room) == n + Kept(|w.bytes| - n, w.ending, w.room - n)
    requires
      var w' := After(w, p, n);
      IsFile(w'.tree, p) && t == SetData(w'.tree, p, w'.tree[p].data + w'.bytes[..Kept(|w'.bytes|, w'.ending, w'.room)])
    ensures t == SetData(w.tree, p, w.tree[p].data + w.bytes[..Kept(|w.bytes|, w.ending, w.room)])
  {
    AppendingTwice(w, p, n, Kept(|w.bytes| - n, w.ending, w.room - n));
  }

  lemma AppendingNothing(w: World, p: Path)
    requires IsFile(w.tree, p)
    ensures SetData(w.tree, p, w.tree[p].data + w.bytes[..0]) == w.tree
  {
    assert w.tree[p].data + w.bytes[..0] == w.tree[p].data;
  }

  lemma AppendingTwice(w: World, p: Path, n: nat, m: nat)
    requires IsFile(w.tree, p) && n + m <= |w.bytes| && n <= w.room
    ensures
      var w' := After(w, p, n);
      && IsFile(w'.tree, p)
      && SetData(w'.tree, p, w'.tree[p].data + w'.bytes[..m]) == SetData(w.tree, p, w.tree[p].data + w.bytes[..n + m])
  {
    assert w.tree[p].data + w.bytes[..n] + w.bytes[n..][..m] == w.tree[p].data + w.bytes[..n + m];
  }

  /** One file task of which only the first a bytes of data arrive. */
  lemma TaskKeeps(w: World, base: Path, j: Job, after: seq<byte>, k: nat, a: nat, files: set<Path>, dirs: set<Path>)
    requires ValidJob(j) && !j.meta.isDir && Placed(base, j, files, dirs) && files !! dirs && [] !in files
    requires TreeFits(w.tree, files, dirs) && Aligned(w.tree, base, j)
    requires k == 8 + a && a < RoomFor(j) && k <= |Payload(j) + after| && w.bytes == (Payload(j) + after)[..k]
    ensures
      var r := ReceiveTask(w, base, j.meta);
      && !r.ok && IsFile(r.world.tree, Full(base, j))
      && r.world.tree[Full(base, j)].data == j.content[..j.resume + Kept(a, w.ending, w.room)]
  {
    CutPayload(j, after, k);
    var w' := w.(bytes := w.bytes[8..]);
    assert w'.bytes == j.content[j.resume..][..a];
    FileKeeps(w', Full(base, j), j, a, files, dirs);
  }

  lemma FileKeeps(w: World, p: Path, j: Job, a: nat, files: set<Path>, dirs: set<Path>)
    requires ValidJob(j) && !j.meta.isDir
    requires TreeFits(w.tree, files, dirs) && files !! dirs && p in files && p != [] && Ancestors(p) <= dirs
    requires j.resume > 0 ==> p in w.tree && w.tree[p].data == j.content[..j.resume]
    requires a < RoomFor(j) && w.bytes == j.content[j.resume..][..a]
    ensures
      var r := ReceiveFile(w, p, j.meta, j.resume);
      && !r.ok && IsFile(r.world.tree, p)
      && r.world.tree[p].data == j.content[..j.resume + Kept(a, w.ending, w.room)]
  {
    ParentChain(p);
    EmptyIsNoAncestor(p);
    CreateDirectoryAddsMissing(w.tree, Parent(p), DEFAULT_DIR_MODE);
    WithDirsFits(w.tree, Ancestors(p), DEFAULT_DIR_MODE, files, dirs);
    var w1 := w.(tree := WithDirs(w.tree, Ancestors(p), DEFAULT_DIR_MODE));
    FileDataKeeps(w1, p, j, a, files, dirs);
  }

  lemma FileDataKeeps(w: World, p: Path, j: Job, a: nat, files: set<Path>, dirs: set<Path>)
    requires ValidJob(j) && !j.meta.isDir
    requires TreeFits(w.tree, files, dirs) && files !! dirs && p in files && p != []
    requires Ancestors(p) <= dirs && Ancestors(p) <= w.tree.Keys
    requires j.resume > 0 ==> p in w.tree && w.tree[p].data == j.content[..j.resume]
    requires a < RoomFor(j) && w.bytes == j.content[j.resume..][..a]
    ensures
      var r := ReceiveFileData(w, p, j.resume, |j.content|);
      && !r.ok && IsFile(r.world.tree, p)
      && r.world.tree[p].data == j.content[..j.resume + Kept(a, w.ending, w.room)]
  {
    OpenSucceeds(w.tree, p, j.resume <= 0, files, dirs);
    var o := Open(w.tree, p, j.resume <= 0).value;
    assert o[p].data == j.content[..j.resume];
    LoopKeeps(w.(tree := o), p, j.resume, |j.content|);
    PrefixOfRest(j.content, j.resume, a, Kept(a, w.ending, w.room));
  }

  lemma PrefixOfRest(content: seq<byte>, from: nat, a: nat, n: nat)
    requires n <= a && from + a <= |content|
    ensures content[..from] + content[from..][..a][..n] == content[..from + n]
  {
    assert content[from..][..a][..n] == content[from..][..n];
    assert content[from..][..n] == content[from..from + n];
  }

  // ---------- what the server keeps of a session ----------

  /** The length of the i-th file after k bytes of payloads have arrived, too few to complete it: the disk
      must take all files before it, and its own offset must arrive. */
  function LengthAfter(t: Tree, base: Path, js: seq<Job>, i: nat, k: nat, ending: Ending, room: nat): Option<nat>
    requires i < |js| && js[i] in js && forall j :: j in js ==> ValidJob(j)
  {
    var before, files := |Payloads(js[..i])|, RoomForAll(js[..i]);
    if k >= before && room >= files then LengthFrom(t, base, js[i], k - before, ending, room - files)
    else LengthOf(t, Full(base, js[i]))
  }

  /** The same, counted from where the task begins. */
  function LengthFrom(t: Tree, base: Path, j: Job, k: nat, ending: Ending, room: nat): Option<nat>
    requires ValidJob(j)
  {
    if k >= 8 then Some(j.resume + Kept(k - 8, ending, room)) else LengthOf(t, Full(base, j))
  }

  lemma LengthAfterFrom(t: Tree, base: Path, js: seq<Job>, i: nat, k: nat, ending: Ending, room: nat, k': nat,
                        room': nat)
    requires i < |js| && js[i] in js && forall j :: j in js ==> ValidJob(j)
    requires k == |Payloads(js[..i])| + k' && room == RoomForAll(js[..i]) + room'
    ensures LengthAfter(t, base, js, i, k, ending, room) == LengthFrom(t, base, js[i], k', ending, room')
  {
    var before, files := |Payloads(js[..i])|, RoomForAll(js[..i]);
    assert k - before == k' && room - files == room';
  }

  function LengthOf(t: Tree, p: Path): Option<nat> {
    if IsFile(t, p) then Some(|t[p].data|) else None
  }

  /** What becomes of t: the i-th file has the given length and is a beginning of its source if it was one,
      the later ones are as they were. */
  ghost predicate LeftAt(t: Tree, t': Tree, base: Path, js: seq<Job>, i: nat, length: Option<nat>, dirs: set<Path>)
    requires i < |js|
  {
    && Grown(t, t', TouchedByAll(base, js[..i]) + Touched(base, js[i]), dirs)
    && LengthOf(t', Full(base, js[i])) == length
    && (PrefixAt(t, base, js[i]) ==> PrefixAt(t', base, js[i]))
  }

  lemma LeftAtFront(t: Tree, t': Tree, base: Path, js: seq<Job>, i: nat, files: set<Path>, dirs: set<Path>)
    requires Layout(base, js, files, dirs) && i < |js| && !js[i].meta.isDir
    requires Grown(t, t', TouchedByAll(base, js[..i]), dirs)
    ensures LeftAt(t, t', base, js, i, LengthOf(t, Full(base, js[i])), dirs)
  {
    LayoutAround(base, js, i, files, dirs);
  }

  lemma LeftAtTask(t: Tree, t': Tree, t'': Tree, base: Path, js: seq<Job>, i: nat, n: nat, files: set<Path>,
                   dirs: set<Path>)
    requires Layout(base, js, files, dirs) && i < |js| && !js[i].meta.isDir && n <= |js[i].content|
    requires Grown(t, t', TouchedByAll(base, js[..i]), dirs) && Grown(t', t'', Touched(base, js[i]), dirs)
    requires IsFile(t'', Full(base, js[i])) && t''[Full(base, js[i])].data == js[i].content[..n]
    ensures LeftAt(t, t'', base, js, i, Some(n), dirs)
  {
    GrownTwice(t, t', t'', TouchedByAll(base, js[..i]), Touched(base, js[i]), dirs);
  }

  /** The task loop on the first k bytes of the payloads, too few to complete the i-th file. */
  lemma LoopLeaves(w: World, base: Path, js: seq<Job>, i: nat, k: nat, files: set<Path>, dirs: set<Path>)
    requires Layout(base, js, files, dirs) && TreeFits(w.tree, files, dirs)
    requires i < |js| && js[i] in js && !js[i].meta.isDir
    requires AllAligned(w.tree, base, js[..i]) && Aligned(w.tree, base, js[i])
    requires k <= |Payloads(js)| && w.bytes == Payloads(js)[..k]
    requires k < |Payloads(js[..i])| + 8 + RoomFor(js[i])
    ensures LeftAt(w.tree, ReceiveTasks(w, base, Metas(js)).world.tree, base, js, i,
                   LengthAfter(w.tree, base, js, i, k, w.ending, w.room), dirs)
  {
    var r := ReceiveTasks(w, base, Metas(js[..i]));
    var k' := TaskReached(w, base, js, i, k, files, dirs);
    if !r.ok {
      TasksStop(w, base, js, i);
      LeftAtFront(w.tree, r.world.tree, base, js, i, files, dirs);
      LengthUnreached(w.tree, base, js, i, k, w.ending, w.room);
    } else {
      LoopLeavesTask(w, base, js, i, k, k', r.world, files, dirs);
    }
  }

  /** What the tasks before the i-th one leave to it. */
  lemma TaskReached(w: World, base: Path, js: seq<Job>, i: nat, k: nat, files: set<Path>, dirs: set<Path>)
    returns (k': nat)
    requires Layout(base, js, files, dirs) && TreeFits(w.tree, files, dirs)
    requires i < |js| && AllAligned(w.tree, base, js[..i])
    requires k <= |Payloads(js)| && w.bytes == Payloads(js)[..k]
    ensures
      var r := ReceiveTasks(w, base, Metas(js[..i]));
      && TreeFits(r.world.tree, files, dirs)
      && Grown(w.tree, r.world.tree, TouchedByAll(base, js[..i]), dirs)
      && (!r.ok ==> k < |Payloads(js[..i])| || w.room < RoomForAll(js[..i]))
      && (r.ok ==> && k == |Payloads(js[..i])| + k' && w.room == RoomForAll(js[..i]) + r.world.room
                   && r.world.ending == w.ending
                   && k' <= |FromTask(js, i)| && r.world.bytes == FromTask(js, i)[..k'])
  {
    BeforeTask(w, base, js, i, k, files, dirs);
    k' := Minus(k, |Payloads(js[..i])|);
  }

  lemma LengthUnreached(t: Tree, base: Path, js: seq<Job>, i: nat, k: nat, ending: Ending, room: nat)
    requires i < |js| && js[i] in js && forall j :: j in js ==> ValidJob(j)
    requires k < |Payloads(js[..i])| || room < RoomForAll(js[..i])
    ensures LengthAfter(t, base, js, i, k, ending, room) == LengthOf(t, Full(base, js[i]))
  {
  }

  /** The same once the tasks before the i-th one are done. */
  lemma LoopLeavesTask(w: World, base: Path, js: seq<Job>, i: nat, k: nat, k': nat, w': World,
                       files: set<Path>, dirs: set<Path>)
    requires Layout(base, js, files, dirs) && i < |js| && js[i] in js && !js[i].meta.isDir
    requires ReceiveTasks(w, base, Metas(js[..i])).ok && ReceiveTasks(w, base, Metas(js[..i])).world == w'
    requires TreeFits(w'.tree, files, dirs) && Aligned(w.tree, base, js[i])
    requires Grown(w.tree, w'.tree, TouchedByAll(base, js[..i]), dirs)
    requires k == |Payloads(js[..i])| + k' && k' < 8 + RoomFor(js[i])
    requires w'.ending == w.ending && w.room == RoomForAll(js[..i]) + w'.room
    requires k' <= |FromTask(js, i)| && w'.bytes == FromTask(js, i)[..k']
    ensures LeftAt(w.tree, ReceiveTasks(w, base, Metas(js)).world.tree, base, js, i,
                   LengthAfter(w.tree, base, js, i, k, w.ending, w.room), dirs)
  {
    FileAsBefore(w.tree, w'.tree, base, js, i, files, dirs);
    LengthAfterFrom(w.tree, base, js, i, k, w.ending, w.room, k', w'.room);
    var length := TaskLeaves(w.tree, w', base, js, i, k', files, dirs);
    TaskIsLast(w, base, js, i);
  }

  /** The i-th task itself. */
  lemma TaskLeaves(t: Tree, w: World, base: Path, js: seq<Job>, i: nat, k: nat, files: set<Path>, dirs: set<Path>)
    returns (length: Option<nat>)
    requires Layout(base, js, files, dirs) && TreeFits(w.tree, files, dirs)
    requires i < |js| && ValidJob(js[i]) && !js[i].meta.isDir && Aligned(w.tree, base, js[i])
    requires Grown(t, w.tree, TouchedByAll(base, js[..i]), dirs)
    requires k <= |FromTask(js, i)| && w.bytes == FromTask(js, i)[..k] && k < 8 + RoomFor(js[i])
    ensures length == LengthFrom(t, base, js[i], k, w.ending, w.room)
    ensures
      var r := ReceiveTask(w, base, js[i].meta);
      !r.ok && LeftAt(t, r.world.tree, base, js, i, length, dirs)
  {
    length := LengthFrom(t, base, js[i], k, w.ending, w.room);
    if k < 8 {
      TaskLeavesNothing(t, w, base, js, i, files, dirs);
    } else {
      var a, n := LengthFromIs(t, base, js[i], k, w.ending, w.room);
      TaskLeavesSome(t, w, base, js, i, k, a, n, files, dirs);
    }
  }

  lemma LengthFromIs(t: Tree, base: Path, j: Job, k: nat, ending: Ending, room: nat) returns (a: nat, n: nat)
    requires ValidJob(j) && k >= 8
    ensures k == 8 + a && n == j.resume + Kept(a, ending, room)
    ensures LengthFrom(t, base, j, k, ending, room) == Some(n)
  {
    a := k - 8;
    n := j.resume + Kept(a, ending, room);
  }

  lemma TaskIsLast(w: World, base: Path, js: seq<Job>, i: nat)
    requires i < |js| && ReceiveTasks(w, base, Metas(js[..i])).ok
    requires !ReceiveTask(ReceiveTasks(w, base, Metas(js[..i])).world, base, js[i].meta).ok
    ensures ReceiveTasks(w, base, Metas(js)).world ==
            ReceiveTask(ReceiveTasks(w, base, Metas(js[..i])).world, base, js[i].meta).world
  {
    TasksFrom(w, base, js, i);
  }

  /** When its offset does not arrive. */
  lemma TaskLeavesNothing(t: Tree, w: World, base: Path, js: seq<Job>, i: nat, files: set<Path>, dirs: set<Path>)
    requires Layout(base, js, files, dirs) && i < |js| && !js[i].meta.isDir && |w.bytes| < 8
    requires Grown(t, w.tree, TouchedByAll(base, js[..i]), dirs)
    ensures
      var r := ReceiveTask(w, base, js[i].meta);
      !r.ok && LeftAt(t, r.world.tree, base, js, i, LengthOf(t, Full(base, js[i])), dirs)
  {
    NoOffset(w, base, js[i].meta);
    LeftAtFront(t, w.tree, base, js, i, files, dirs);
  }

  /** And when it does. */
  lemma TaskLeavesSome(t: Tree, w: World, base: Path, js: seq<Job>, i: nat, k: nat, a: nat, n: nat,
                       files: set<Path>, dirs: set<Path>)
    requires Layout(base, js, files, dirs) && TreeFits(w.tree, files, dirs)
    requires i < |js| && ValidJob(js[i]) && !js[i].meta.isDir && Aligned(w.tree, base, js[i])
    requires Grown(t, w.tree, TouchedByAll(base, js[..i]), dirs)
    requires k == 8 + a && k <= |FromTask(js, i)| && w.bytes == FromTask(js, i)[..k] && a < RoomFor(js[i])
    requires n == js[i].resume + Kept(a, w.ending, w.room)
    ensures
      var r := ReceiveTask(w, base, js[i].meta);
      !r.ok && LeftAt(t, r.world.tree, base, js, i, Some(n), dirs)
  {
    assert js[i] in js && Placed(base, js[i], files, dirs);
    TaskKeeps(w, base, js[i], Payloads(js[i + 1..]), k, a, files, dirs);
    TaskFrame(w, base, js[i], files, dirs);
    LeftAtTask(t, w.tree, ReceiveTask(w, base, js[i].meta).world.tree, base, js, i, n, files, dirs);
  }

  lemma NoOffset(w: World, base: Path, t: TaskMeta)
    requires |w.bytes| < 8
    ensures ReceiveTask(w, base, t) == Received(false, w.(bytes := []))
  {
  }

  // ---------- both sides of a visit ----------

  /** The bytes of the payloads that the network takes, and that reach the server. */
  function Taken(v: Visit, js: seq<Job>): nat
    requires (forall j :: j in js ==> ValidJob(j)) && |js| < 0x8000_0000
  {
    Minus(v.accept, HeaderSize(js))
  }

  function Arrived(v: Visit, js: seq<Job>): nat
    requires (forall j :: j in js ==> ValidJob(j)) && |js| < 0x8000_0000
  {
    Minus(Min(v.delivered, Min(v.accept, |Stream(js)|)), HeaderSize(js))
  }

  /** A visit to sound files that meets no mismatch. Nothing is asked of how much of it is taken, delivered
      or written, nor of how the connection ends. */
  ghost predicate Calls(g: Target, st: State, v: Visit) {
    && Serves(g, st, v) && Sound(g, st.tree) && NoMismatch(g, st, v)
    && (forall j :: j in JobsOf(st, v) ==> ValidJob(j)) && |JobsOf(st, v)| < 0x8000_0000
  }

  /** Where the client stops. */
  function StopIn(st: State, v: Visit): Option<Stop>
    requires (forall j :: j in JobsOf(st, v) ==> ValidJob(j)) && |JobsOf(st, v)| < 0x8000_0000
  {
    StopOf(JobsOf(st, v), Taken(v, JobsOf(st, v)))
  }

  /** The length of the server's file, afterwards, in which the client stops. */
  function LengthIn(g: Target, st: State, v: Visit, i: nat): Option<nat>
    requires (forall j :: j in JobsOf(st, v) ==> ValidJob(j)) && |JobsOf(st, v)| < 0x8000_0000
    requires i < |JobsOf(st, v)| && JobsOf(st, v)[i] in JobsOf(st, v)
  {
    LengthAfter(st.tree, g.base, JobsOf(st, v), i, Arrived(v, JobsOf(st, v)), v.ending, v.room)
  }

  /** What the server's task loop finds. */
  function CutWorld(st: State, v: Visit, k: nat): World
    requires forall j :: j in JobsOf(st, v) ==> ValidJob(j)
    requires k <= |Payloads(JobsOf(st, v))|
  {
    World(st.tree, Payloads(JobsOf(st, v))[..k], v.ending, v.room)
  }

  lemma VisitReachesLoop(g: Target, st: State, v: Visit)
    requires Calls(g, st, v)
    ensures Arrived(v, JobsOf(st, v)) <= |Payloads(JobsOf(st, v))|
    ensures
      var js, t := JobsOf(st, v), Visiting(st, v, g.base).state.tree;
      if Min(v.delivered, Min(v.accept, |Stream(js)|)) < HeaderSize(js) then t == st.tree
      else t == ReceiveTasks(CutWorld(st, v, Arrived(v, js)), g.base, Metas(js)).world.tree
  {
    ArrivedIsPrefix(st, v);
    var js := JobsOf(st, v);
    var sent := SyncRemote(Net([], true, v.accept), st.records, v.sources, v.resume).net.sent;
    var k := Min(v.delivered, |sent|);
    StreamReachesLoop(World(st.tree, sent[..k], v.ending, v.room), g.base, js, k);
  }

  lemma VisitLeaves(g: Target, st: State, v: Visit, i: nat)
    requires Calls(g, st, v) && StopIn(st, v).Some? && StopIn(st, v).value.index == i
    ensures i < |JobsOf(st, v)| && JobsOf(st, v)[i] in JobsOf(st, v)
    ensures LeftAt(st.tree, Visiting(st, v, g.base).state.tree, g.base, JobsOf(st, v), i, LengthIn(g, st, v, i), g.dirs)
  {
    var js := JobsOf(st, v);
    var k := Arrived(v, js);
    StopOfIs(js, Taken(v, js));
    VisitAligned(g, st, v);
    VisitReachesLoop(g, st, v);
    if Min(v.delivered, Min(v.accept, |Stream(js)|)) < HeaderSize(js) {
      LeftAtFront(st.tree, st.tree, g.base, js, i, g.files, g.dirs);
    } else {
      AlignedFront(st.tree, g.base, js, i);
      LoopLeaves(CutWorld(st, v, k), g.base, js, i, k, g.files, g.dirs);
    }
  }

  lemma AlignedFront(t: Tree, base: Path, js: seq<Job>, i: nat)
    requires AllAligned(t, base, js) && i < |js|
    ensures AllAligned(t, base, js[..i]) && Aligned(t, base, js[i])
  {
    assert js[i] in js && forall j :: j in js[..i] ==> j in js;
  }

  lemma VisitRecords(g: Target, st: State, v: Visit)
    requires Calls(g, st, v)
    ensures RecordsFit(st.records, v.sources, v.resume, StopIn(st, v), st.records,
                       Visiting(st, v, g.base).state.records)
  {
    var m := HeaderTaken(Net([], true, v.accept), st.records, v.sources, v.resume);
    RecordsAfterSession(m, st.records, st.records, v.sources, v.resume);
  }

  // ---------- the next session ----------

  /** Whether the next resumed session finds the server's file at the offset it will send: it does not if
      and only if the record can be loaded, covers a whole block, and is not the length of the file. */
  predicate WillMismatch(dest: Path, next: nat, length: Option<nat>) {
    Loadable(dest) && next > 0 && length != Some(next)
  }

  /** The offset that the client has recorded for the source in which it stopped. */
  function NextOffset(st: State, v: Visit, stop: Stop): nat
    requires stop.index < |v.sources|
  {
    ResumeOffset(st.records, v.sources[stop.index], v.resume) + WholeBlocks(stop.taken)
  }

  /** The whole test, from what a caller knows before the next session. */
  predicate StopMismatches(g: Target, st: State, v: Visit, stop: Stop)
    requires (forall j :: j in JobsOf(st, v) ==> ValidJob(j)) && |JobsOf(st, v)| < 0x8000_0000
    requires stop.index < |JobsOf(st, v)| && JobsOf(st, v)[stop.index] in JobsOf(st, v)
  {
    WillMismatch(v.sources[stop.index].meta.dest, NextOffset(st, v, stop), LengthIn(g, st, v, stop.index))
  }

  /** The file in which the client stops. */
  lemma NextOffsetMatchesIff(g: Target, st: State, v: Visit, stop: Stop)
    requires Calls(g, st, v) && StopIn(st, v) == Some(stop)
    ensures stop.index < |v.sources| && JobsOf(st, v)[stop.index] in JobsOf(st, v)
    ensures
      var st', s := Visiting(st, v, g.base).state, v.sources[stop.index];
      Mismatch(st'.tree, g.base, JobOf(st'.records, s, true)) <==> StopMismatches(g, st, v, stop)
  {
    var s := StopSource(g, st, v, stop);
    var st' := Visiting(st, v, g.base).state;
    var length, next := LengthIn(g, st, v, stop.index), NextOffset(st, v, stop);
    MismatchAfterStop(st'.tree, g.base, st'.records, s, next, length);
  }

  /** What the stop leaves, for the source in which it happened. */
  lemma StopSource(g: Target, st: State, v: Visit, stop: Stop) returns (s: Source)
    requires Calls(g, st, v) && StopIn(st, v) == Some(stop)
    ensures stop.index < |v.sources| && JobsOf(st, v)[stop.index] in JobsOf(st, v)
    ensures s == v.sources[stop.index] && !s.meta.isDir
    ensures
      var st' := Visiting(st, v, g.base).state;
      && LengthOf(st'.tree, g.base + s.meta.dest) == LengthIn(g, st, v, stop.index)
      && ResumeOffset(st'.records, s, true) == if Loadable(s.meta.dest) then NextOffset(st, v, stop) else 0
  {
    StopLength(g, st, v, stop);
    StopRecord(g, st, v, stop);
    s := v.sources[stop.index];
    OffsetAfterStop(st.records, Visiting(st, v, g.base).state.records, s, v.resume, stop.taken);
  }

  lemma StopLength(g: Target, st: State, v: Visit, stop: Stop)
    requires Calls(g, st, v) && StopIn(st, v) == Some(stop)
    ensures stop.index < |v.sources| && JobsOf(st, v)[stop.index] in JobsOf(st, v)
    ensures LengthOf(Visiting(st, v, g.base).state.tree, g.base + v.sources[stop.index].meta.dest) ==
            LengthIn(g, st, v, stop.index)
  {
    VisitLeaves(g, st, v, stop.index);
  }

  lemma StopRecord(g: Target, st: State, v: Visit, stop: Stop)
    requires Calls(g, st, v) && StopIn(st, v) == Some(stop)
    ensures stop.index < |v.sources| && !v.sources[stop.index].meta.isDir
    ensures
      var s := v.sources[stop.index];
      && stop.taken < |s.content| - ResumeOffset(st.records, s, v.resume)
      && Saved(Visiting(st, v, g.base).state.records, s.meta.dest) ==
         Some(CutRecord(st.records, s, v.resume, stop.taken))
  {
    StopOfIs(JobsOf(st, v), Taken(v, JobsOf(st, v)));
    VisitRecords(g, st, v);
  }

  lemma MismatchAfterStop(t: Tree, base: Path, records: Records, s: Source, next: nat, length: Option<nat>)
    requires !s.meta.isDir && LengthOf(t, base + s.meta.dest) == length
    requires ResumeOffset(records, s, true) == if Loadable(s.meta.dest) then next else 0
    ensures Mismatch(t, base, JobOf(records, s, true)) <==> WillMismatch(s.meta.dest, next, length)
  {
    MismatchByLength(t, base, records, s);
  }

  /** The test that the server will make, by lengths. */
  lemma MismatchByLength(t: Tree, base: Path, records: Records, s: Source)
    ensures Mismatch(t, base, JobOf(records, s, true)) <==>
            !s.meta.isDir && ResumeOffset(records, s, true) > 0
            && LengthOf(t, base + s.meta.dest) != Some(ResumeOffset(records, s, true))
  {
  }

  lemma OffsetAfterStop(before: Records, after: Records, s: Source, resume: bool, m: nat)
    requires !s.meta.isDir && m < |s.content| - ResumeOffset(before, s, resume)
    requires Saved(after, s.meta.dest) == Some(CutRecord(before, s, resume, m))
    ensures
      var next := ResumeOffset(before, s, resume) + WholeBlocks(m);
      ResumeOffset(after, s, true) == if Loadable(s.meta.dest) then next else 0
  {
    LoadProgressIs(s.meta.dest, Saved(after, s.meta.dest));
  }

  /** The sources after the one in which the client stops. */
  ghost predicate LaterMatch(g: Target, st: State, v: Visit, stop: Stop) {
    forall a :: stop.index < a < |v.sources| ==> !Mismatch(st.tree, g.base, JobOf(st.records, v.sources[a], true))
  }

  /** The whole of the next session, whatever happened to this one: it meets no mismatch on any of its files,
      if and only if the client was not stopped, or the file in which it was stopped meets none and the files
      after it would have met none before. */
  lemma NextVisitCleanIff(g: Target, st: State, v: Visit, next: Visit)
    requires Calls(g, st, v) && next.resume && next.sources == v.sources
    ensures
      match StopIn(st, v)
      case None => NoMismatch(g, Visiting(st, v, g.base).state, next)
      case Some(stop) =>
        && stop.index < |JobsOf(st, v)| && JobsOf(st, v)[stop.index] in JobsOf(st, v)
        && (NoMismatch(g, Visiting(st, v, g.base).state, next) <==>
           !StopMismatches(g, st, v, stop) && LaterMatch(g, st, v, stop))
  {
    match StopIn(st, v)
    case None => CleanWithoutStop(g, st, v, next);
    case Some(stop) =>
      NextOffsetMatchesIff(g, st, v, stop);
      var st' := Visiting(st, v, g.base).state;
      forall a | 0 <= a < |v.sources| && a != stop.index
        ensures Mismatch(st'.tree, g.base, JobOf(st'.records, v.sources[a], true)) <==>
                stop.index < a && Mismatch(st.tree, g.base, JobOf(st.records, v.sources[a], true))
      {
        if a < stop.index {
          EarlierClean(g, st, v, stop, a);
        } else {
          OthersAsBefore(g, st, v, stop, a);
        }
      }
      EachJob(g, st', next);
  }

  lemma CleanWithoutStop(g: Target, st: State, v: Visit, next: Visit)
    requires Calls(g, st, v) && StopIn(st, v) == None && next.resume && next.sources == v.sources
    ensures NoMismatch(g, Visiting(st, v, g.base).state, next)
  {
    VisitRecords(g, st, v);
    var st' := Visiting(st, v, g.base).state;
    forall a | 0 <= a < |v.sources|
      ensures !Mismatch(st'.tree, g.base, JobOf(st'.records, v.sources[a], true))
    {
      assert v.sources[a] in v.sources;
      CleanWithoutRecord(st'.tree, g.base, st'.records, v.sources[a]);
    }
    EachJob(g, st', next);
  }

  lemma EarlierClean(g: Target, st: State, v: Visit, stop: Stop, a: nat)
    requires Calls(g, st, v) && StopIn(st, v) == Some(stop) && a < stop.index < |v.sources|
    ensures
      var st', s := Visiting(st, v, g.base).state, v.sources[a];
      !Mismatch(st'.tree, g.base, JobOf(st'.records, s, true))
  {
    VisitRecords(g, st, v);
    var st' := Visiting(st, v, g.base).state;
    assert v.sources[a] in v.sources[..stop.index];
    CleanWithoutRecord(st'.tree, g.base, st'.records, v.sources[a]);
  }

  lemma CleanWithoutRecord(t: Tree, base: Path, records: Records, s: Source)
    requires s.meta.isDir || Saved(records, s.meta.dest) == None
    ensures !Mismatch(t, base, JobOf(records, s, true))
  {
    LoadProgressIs(s.meta.dest, None);
  }

  lemma EachJob(g: Target, st: State, v: Visit)
    requires v.resume
    ensures NoMismatch(g, st, v) <==>
            forall a :: 0 <= a < |v.sources| ==> !Mismatch(st.tree, g.base, JobOf(st.records, v.sources[a], true))
  {
    var js := JobsOf(st, v);
    forall a | 0 <= a < |v.sources|
      ensures js[a] in js && js[a] == JobOf(st.records, v.sources[a], true)
    {
    }
  }

  lemma OthersAsBefore(g: Target, st: State, v: Visit, stop: Stop, a: nat)
    requires Calls(g, st, v) && StopIn(st, v) == Some(stop) && stop.index < a < |v.sources|
    ensures
      var st', s := Visiting(st, v, g.base).state, v.sources[a];
      Mismatch(st'.tree, g.base, JobOf(st'.records, s, true)) <==> Mismatch(st.tree, g.base, JobOf(st.records, s, true))
  {
    var st', s := Visiting(st, v, g.base).state, v.sources[a];
    if !s.meta.isDir {
      OtherRecord(g, st, v, stop, a);
      OtherLength(g, st, v, stop, a);
    }
    MismatchByLength(st.tree, g.base, st.records, s);
    MismatchByLength(st'.tree, g.base, st'.records, s);
  }

  lemma OtherRecord(g: Target, st: State, v: Visit, stop: Stop, a: nat)
    requires Calls(g, st, v) && StopIn(st, v) == Some(stop) && stop.index < a < |v.sources| && !v.sources[a].meta.isDir
    ensures Saved(Visiting(st, v, g.base).state.records, v.sources[a].meta.dest) ==
            Saved(st.records, v.sources[a].meta.dest)
  {
    VisitRecords(g, st, v);
    NotSentBefore(v.sources, stop.index, a);
  }

  lemma OtherLength(g: Target, st: State, v: Visit, stop: Stop, a: nat)
    requires Calls(g, st, v) && StopIn(st, v) == Some(stop) && stop.index < a < |v.sources| && !v.sources[a].meta.isDir
    ensures LengthOf(Visiting(st, v, g.base).state.tree, g.base + v.sources[a].meta.dest) ==
            LengthOf(st.tree, g.base + v.sources[a].meta.dest)
  {
    VisitLeaves(g, st, v, stop.index);
    LaterLength(st.tree, Visiting(st, v, g.base).state.tree, g.base, JobsOf(st, v), stop.index, a, g.files, g.dirs);
  }

  lemma LaterLength(t: Tree, t': Tree, base: Path, js: seq<Job>, i: nat, a: nat, files: set<Path>, dirs: set<Path>)
    requires Layout(base, js, files, dirs) && i < a < |js| && !js[a].meta.isDir
    requires Grown(t, t', TouchedByAll(base, js[..i]) + Touched(base, js[i]), dirs)
    ensures LengthOf(t', Full(base, js[a])) == LengthOf(t, Full(base, js[a]))
  {
    UntouchedBefore(base, js, i, a, files, dirs);
    assert js[a] in js && Placed(base, js[a], files, dirs);
  }

  lemma NotSentBefore(sources: seq<Source>, i: nat, a: nat)
    requires DistinctDests(sources) && i < a < |sources| && !sources[a].meta.isDir
    ensures !Sends(sources[..i + 1], sources[a].meta.dest)
  {
  }

  lemma UntouchedBefore(base: Path, js: seq<Job>, i: nat, a: nat, files: set<Path>, dirs: set<Path>)
    requires Layout(base, js, files, dirs) && i < a < |js| && !js[a].meta.isDir
    ensures Full(base, js[a]) !in TouchedByAll(base, js[..i]) + Touched(base, js[i])
  {
    assert js[0..i] == js[..i] && js[a..a + 1] == [js[a]] && js[i..i + 1] == [js[i]];
    PartsApart(base, js, 0, i, a, a + 1, files, dirs);
    PartsApart(base, js, i, i + 1, a, a + 1, files, dirs);
    OneTouched(base, js[a]);
    OneTouched(base, js[i]);
  }

  /** In particular a session that resumes: the files after the stop match, since they did in this one. */
  lemma ResumedVisitCleanIff(g: Target, st: State, v: Visit, next: Visit, stop: Stop)
    requires Calls(g, st, v) && v.resume && StopIn(st, v) == Some(stop) && next.resume && next.sources == v.sources
    ensures stop.index < |v.sources| && JobsOf(st, v)[stop.index] in JobsOf(st, v)
    ensures NoMismatch(g, Visiting(st, v, g.base).state, next) <==> !StopMismatches(g, st, v, stop)
  {
    NextVisitCleanIff(g, st, v, next);
    EachJob(g, st, v);
  }

  /** When all the data that was taken of the file arrives, over a connection that is closed in order, and
      the disk has room, the cut matters only by where it falls in a block. */
  lemma DeliveredMatchesIffBlockBoundary(g: Target, st: State, v: Visit, js: seq<Job>, stop: Stop)
    requires js == JobsOf(st, v) && (forall j :: j in js ==> ValidJob(j)) && |js| < 0x8000_0000
    requires stop.index < |js| && js[stop.index] in js
    requires Arrived(v, js) == |Payloads(js[..stop.index])| + (8 + stop.taken)
    requires v.ending == Eof && v.room >= RoomForAll(js[..stop.index]) + stop.taken
    ensures StopMismatches(g, st, v, stop) <==>
            && Loadable(v.sources[stop.index].meta.dest)
            && js[stop.index].resume + WholeBlocks(stop.taken) > 0 && stop.taken % BLOCK_SIZE != 0
  {
    var resume, length := StopMismatchesIs(g, st, v, js, stop);
    BoundaryDecides(st.tree, g.base, js, stop.index, Arrived(v, js), resume, stop.taken, v.ending, v.room,
                    v.sources[stop.index].meta.dest, length);
  }

  lemma StopMismatchesIs(g: Target, st: State, v: Visit, js: seq<Job>, stop: Stop)
    returns (resume: nat, length: Option<nat>)
    requires js == JobsOf(st, v) && (forall j :: j in js ==> ValidJob(j)) && |js| < 0x8000_0000
    requires stop.index < |js| && js[stop.index] in js
    ensures resume == js[stop.index].resume
    ensures length == LengthAfter(st.tree, g.base, js, stop.index, Arrived(v, js), v.ending, v.room)
    ensures StopMismatches(g, st, v, stop) <==>
            WillMismatch(v.sources[stop.index].meta.dest, resume + WholeBlocks(stop.taken), length)
  {
    resume := NextOffsetIs(st, v, js, stop);
    length := LengthOfStop(g, st, v, js, stop);
    StopTest(g, st, v, js, stop, resume + WholeBlocks(stop.taken), length);
  }

  lemma StopTest(g: Target, st: State, v: Visit, js: seq<Job>, stop: Stop, next: nat, length: Option<nat>)
    requires js == JobsOf(st, v) && (forall j :: j in js ==> ValidJob(j)) && |js| < 0x8000_0000
    requires stop.index < |js| && js[stop.index] in js
    requires next == NextOffset(st, v, stop) && length == LengthIn(g, st, v, stop.index)
    ensures StopMismatches(g, st, v, stop) <==> WillMismatch(v.sources[stop.index].meta.dest, next, length)
  {
  }

  lemma NextOffsetIs(st: State, v: Visit, js: seq<Job>, stop: Stop) returns (resume: nat)
    requires js == JobsOf(st, v) && stop.index < |js|
    ensures resume == js[stop.index].resume && NextOffset(st, v, stop) == resume + WholeBlocks(stop.taken)
  {
    resume := ResumeOffset(st.records, v.sources[stop.index], v.resume);
  }

  lemma LengthOfStop(g: Target, st: State, v: Visit, js: seq<Job>, stop: Stop) returns (length: Option<nat>)
    requires js == JobsOf(st, v) && (forall j :: j in js ==> ValidJob(j)) && |js| < 0x8000_0000
    requires stop.index < |js| && js[stop.index] in js
    ensures length == LengthIn(g, st, v, stop.index)
    ensures length == LengthAfter(st.tree, g.base, js, stop.index, Arrived(v, js), v.ending, v.room)
  {
    length := LengthIn(g, st, v, stop.index);
  }

  lemma BoundaryDecides(t: Tree, base: Path, js: seq<Job>, i: nat, k: nat, resume: nat, m: nat, ending: Ending,
                        room: nat, dest: Path, length: Option<nat>)
    requires i < |js| && js[i] in js && (forall j :: j in js ==> ValidJob(j)) && resume == js[i].resume
    requires k == |Payloads(js[..i])| + (8 + m) && room >= RoomForAll(js[..i]) + m && ending == Eof
    requires length == LengthAfter(t, base, js, i, k, ending, room)
    ensures WillMismatch(dest, resume + WholeBlocks(m), length) <==>
            Loadable(dest) && resume + WholeBlocks(m) > 0 && m % BLOCK_SIZE != 0
  {
    LengthAfterFrom(t, base, js, i, k, ending, room, 8 + m, room - RoomForAll(js[..i]));
    BlockBoundary(m);
  }

  lemma BlockBoundary(m: nat)
    ensures WholeBlocks(m) == m <==> m % BLOCK_SIZE == 0
  {
    WholeBlocksIs(m);
  }
}
