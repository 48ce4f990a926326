/** An offset mismatch: the server starts the file over while the client goes on from its offset. */
module SyncRestart {
  import opened Bytes
  import opened Results
  import opened FileTree
  import opened SyncWire
  import opened SyncServer
  import opened SyncSession

  /** The test that receiveFileData makes. */
  ghost predicate Mismatch(t: Tree, base: Path, j: Job) {
    !j.meta.isDir && j.resume > 0 && !(IsFile(t, Full(base, j)) && |t[Full(base, j)].data| == j.resume)
  }

  lemma AlignedUnlessMismatch(t: Tree, base: Path, j: Job)
    requires PrefixAt(t, base, j) && !Mismatch(t, base, j) && ValidJob(j)
    ensures Aligned(t, base, j)
  {
  }

  /** After a mismatch the file is received from the beginning, so the whole of it must arrive. */
  lemma RestartNeedsWholeFile(w: World, base: Path, j: Job, files: set<Path>, dirs: set<Path>)
    requires ValidJob(j) && Placed(base, j, files, dirs) && files !! dirs && [] !in files
    requires TreeFits(w.tree, files, dirs) && Mismatch(w.tree, base, j)
    ensures
      var p := Full(base, j);
      var r := ReceiveFile(w, p, j.meta, j.resume);
      && (r.ok <==> |w.bytes| >= |j.content| && w.room >= |j.content|)
      && (r.ok ==> && p in r.world.tree && r.world.tree[p] == File(w.bytes[..|j.content|], j.meta.mode)
                   && r.world.bytes == w.bytes[|j.content|..] && r.world.room == w.room - |j.content|
                   && Grown(w.tree, r.world.tree, {p}, dirs))
  {
    var p := Full(base, j);
    ParentChain(p);
    EmptyIsNoAncestor(p);
    CreateDirectoryAddsMissing(w.tree, Parent(p), DEFAULT_DIR_MODE);
    WithDirsFits(w.tree, Ancestors(p), DEFAULT_DIR_MODE, files, dirs);
    var w1 := w.(tree := WithDirs(w.tree, Ancestors(p), DEFAULT_DIR_MODE));
    OpenSucceeds(w1.tree, p, false, files, dirs);
    var w2 := w1.(tree := SetData(Open(w1.tree, p, false).value, p, []));
    ReceiveLoopResult(w2, p, 0, |j.content|);
    assert [] + w.bytes[..Min(|w.bytes|, |j.content|)] == w.bytes[..Min(|w.bytes|, |j.content|)];
  }

  lemma {:induction false} ReceiveTasksAppend(w: World, base: Path, a: seq<TaskMeta>, b: seq<TaskMeta>)
    ensures
      var ra := ReceiveTasks(w, base, a);
      ReceiveTasks(w, base, a + b) ==
      if !ra.ok then ra
      else var rb := ReceiveTasks(ra.world, base, b); rb.(done := ra.done + rb.done)
    decreases |a|
  {
    if a == [] {
      assert a + b == b;
    } else {
      assert (a + b)[1..] == a[1..] + b;
      var r := ReceiveTask(w, base, a[0]);
      if r.ok {
        ReceiveTasksAppend(r.world, base, a[1..], b);
      }
    }
  }

  lemma {:induction false} PayloadsConcat(a: seq<Job>, b: seq<Job>)
    requires (forall x :: x in a ==> ValidJob(x)) && (forall x :: x in b ==> ValidJob(x))
    ensures Payloads(a + b) == Payloads(a) + Payloads(b)
    ensures RoomForAll(a + b) == RoomForAll(a) + RoomForAll(b)
  {
    if a == [] {
      assert a + b == b;
      assert [] + Payloads(b) == Payloads(b);
    } else {
      assert (a + b)[1..] == a[1..] + b;
      PayloadsConcat(a[1..], b);
      assert Payload(a[0]) + (Payloads(a[1..]) + Payloads(b)) == Payload(a[0]) + Payloads(a[1..]) + Payloads(b);
    }
  }

  /** A session around one of its tasks. */
  ghost predicate Around(base: Path, front: seq<Job>, j: Job, rest: seq<Job>, files: set<Path>, dirs: set<Path>) {
    && Layout(base, front, files, dirs) && Layout(base, rest, files, dirs)
    && ValidJob(j) && Placed(base, j, files, dirs)
    && (!j.meta.isDir ==> Full(base, j) !in TouchedByAll(base, front) && Full(base, j) !in TouchedByAll(base, rest))
    && TouchedByAll(base, front) !! TouchedByAll(base, rest)
  }

  lemma LayoutPart(base: Path, js: seq<Job>, from: nat, to: nat, files: set<Path>, dirs: set<Path>)
    requires Layout(base, js, files, dirs) && from <= to <= |js|
    ensures Layout(base, js[from..to], files, dirs)
  {
    var part := js[from..to];
    assert forall x :: x in part ==> x in js;
    forall a, b | 0 <= a < b < |part| && !part[a].meta.isDir && !part[b].meta.isDir
      ensures Full(base, part[a]) != Full(base, part[b])
    {
      assert part[a] == js[from + a] && part[b] == js[from + b];
    }
  }

  /** Two parts of a session touch different files. */
  lemma PartsApart(base: Path, js: seq<Job>, a: nat, b: nat, c: nat, d: nat, files: set<Path>, dirs: set<Path>)
    requires Layout(base, js, files, dirs) && a <= b <= c <= d <= |js|
    ensures TouchedByAll(base, js[a..b]) !! TouchedByAll(base, js[c..d])
  {
    forall p | p in TouchedByAll(base, js[a..b])
      ensures p !in TouchedByAll(base, js[c..d])
    {
      var m := TouchedWhere(base, js, a, b, p, files, dirs);
      if p in TouchedByAll(base, js[c..d]) {
        var n := TouchedWhere(base, js, c, d, p, files, dirs);
        assert false;
      }
    }
  }

  lemma TouchedWhere(base: Path, js: seq<Job>, a: nat, b: nat, p: Path, files: set<Path>, dirs: set<Path>)
    returns (m: nat)
    requires Layout(base, js, files, dirs) && a <= b <= |js| && p in TouchedByAll(base, js[a..b])
    ensures a <= m < b && !js[m].meta.isDir && Full(base, js[m]) == p
  {
    var i := FindTouched(base, js[a..b], p);
    m := a + i;
  }

  lemma {:induction false} FindTouched(base: Path, js: seq<Job>, p: Path) returns (m: nat)
    requires p in TouchedByAll(base, js)
    ensures m < |js| && !js[m].meta.isDir && Full(base, js[m]) == p
    decreases |js|
  {
    if p in Touched(base, js[0]) {
      m := 0;
    } else {
      var i := FindTouched(base, js[1..], p);
      m := i + 1;
    }
  }

  lemma LayoutAround(base: Path, js: seq<Job>, i: nat, files: set<Path>, dirs: set<Path>)
    requires Layout(base, js, files, dirs) && i < |js|
    ensures Around(base, js[..i], js[i], js[i + 1..], files, dirs)
  {
    LayoutPart(base, js, 0, i, files, dirs);
    LayoutPart(base, js, i + 1, |js|, files, dirs);
    assert js[0..i] == js[..i] && js[i + 1..|js|] == js[i + 1..];
    assert js[i] in js;
    PartsApart(base, js, 0, i, i + 1, |js|, files, dirs);
    PartsApart(base, js, 0, i, i, i + 1, files, dirs);
    PartsApart(base, js, i, i + 1, i + 1, |js|, files, dirs);
    assert js[i..i + 1] == [js[i]];
    OneTouched(base, js[i]);
  }

  lemma OneTouched(base: Path, j: Job)
    ensures TouchedByAll(base, [j]) == Touched(base, j)
  {
    assert [j][1..] == [];
  }

  lemma PayloadsAround(js: seq<Job>, i: nat)
    requires i < |js| && forall j :: j in js ==> ValidJob(j)
    ensures Payloads(js) == Payloads(js[..i]) + (Payload(js[i]) + Payloads(js[i + 1..]))
    ensures RoomForAll(js) == RoomForAll(js[..i]) + RoomFor(js[i]) + RoomForAll(js[i + 1..])
  {
    assert js == js[..i] + js[i..];
    PayloadsConcat(js[..i], js[i..]);
    PayloadsFrom(js, i);
  }

  lemma PayloadsFrom(js: seq<Job>, i: nat)
    requires i < |js| && forall j :: j in js ==> ValidJob(j)
    ensures Payloads(js[i..]) == Payload(js[i]) + Payloads(js[i + 1..])
    ensures RoomForAll(js[i..]) == RoomFor(js[i]) + RoomForAll(js[i + 1..])
  {
    assert js[i..][0] == js[i] && js[i..][1..] == js[i + 1..];
  }

  lemma MetasAround(js: seq<Job>, i: nat)
    requires i < |js|
    ensures Metas(js) == Metas(js[..i]) + Metas(js[i..])
  {
  }

  // ---------- what any bytes can change ----------

  lemma LoopFrame(w: World, p: Path, received: int, size: int)
    requires IsFile(w.tree, p)
    ensures
      var t := ReceiveLoop(w, p, received, size).world.tree;
      IsFile(t, p) && t == SetData(w.tree, p, t[p].data)
  {
    ReceiveLoopResult(w, p, received, size);
  }

  lemma FileFrame(w: World, p: Path, meta: TaskMeta, resume: int, files: set<Path>, dirs: set<Path>)
    requires TreeFits(w.tree, files, dirs) && files !! dirs && p in files && p != [] && Ancestors(p) <= dirs
    ensures
      var r := ReceiveFile(w, p, meta, resume);
      TreeFits(r.world.tree, files, dirs) && Grown(w.tree, r.world.tree, {p}, dirs)
  {
    ParentChain(p);
    EmptyIsNoAncestor(p);
    CreateDirectoryAddsMissing(w.tree, Parent(p), DEFAULT_DIR_MODE);
    WithDirsFits(w.tree, Ancestors(p), DEFAULT_DIR_MODE, files, dirs);
    var w1 := w.(tree := WithDirs(w.tree, Ancestors(p), DEFAULT_DIR_MODE));
    FileDataFrame(w1, p, meta, resume, files, dirs);
  }

  lemma FileDataFrame(w: World, p: Path, meta: TaskMeta, resume: int, files: set<Path>, dirs: set<Path>)
    requires TreeFits(w.tree, files, dirs) && files !! dirs && p in files && p != []
    requires Ancestors(p) <= dirs && Ancestors(p) <= w.tree.Keys
    ensures
      var r := ReceiveFileData(w, p, resume, meta.size);
      && IsFile(r.world.tree, p)
      && TreeFits(r.world.tree, files, dirs) && Grown(w.tree, r.world.tree, {p}, dirs)
  {
    OpenSucceeds(w.tree, p, resume <= 0, files, dirs);
    var t := Open(w.tree, p, resume <= 0).value;
    if resume > 0 && |t[p].data| != resume {
      LoopFrame(w.(tree := SetData(t, p, [])), p, 0, meta.size);
    } else {
      LoopFrame(w.(tree := t), p, resume, meta.size);
    }
  }

  /** Whatever bytes arrive, a task changes its own file and adds parent directories. */
  lemma TaskFrame(w: World, base: Path, j: Job, files: set<Path>, dirs: set<Path>)
    requires Placed(base, j, files, dirs) && files !! dirs && [] !in files && TreeFits(w.tree, files, dirs)
    ensures
      var r := ReceiveTask(w, base, j.meta);
      TreeFits(r.world.tree, files, dirs) && Grown(w.tree, r.world.tree, Touched(base, j), dirs)
  {
    var g := ReceiveBytes(w, 8);
    if g.data != None {
      if j.meta.isDir {
        DirectoryAligned(g.world, Full(base, j), j.meta.mode, files, dirs);
      } else {
        FileFrame(g.world, Full(base, j), j.meta, DecodeSigned(g.data.value), files, dirs);
      }
    }
  }

  lemma {:induction false} TasksFrame(w: World, base: Path, js: seq<Job>, files: set<Path>, dirs: set<Path>)
    requires Layout(base, js, files, dirs) && TreeFits(w.tree, files, dirs)
    ensures
      var r := ReceiveTasks(w, base, Metas(js));
      TreeFits(r.world.tree, files, dirs) && Grown(w.tree, r.world.tree, TouchedByAll(base, js), dirs)
    decreases |js|
  {
    if js != [] {
      assert js[0] in js;
      LayoutTail(base, js, files, dirs);
      TaskFrame(w, base, js[0], files, dirs);
      ReceiveTasksCons(w, base, js);
      var r := ReceiveTask(w, base, js[0].meta);
      if r.ok {
        TasksFrame(r.world, base, js[1..], files, dirs);
        GrownTwice(w.tree, r.world.tree, ReceiveTasks(r.world, base, Metas(js[1..])).world.tree,
                   Touched(base, js[0]), TouchedByAll(base, js[1..]), dirs);
      }
    }
  }

  // ---------- a mismatch decides the file ----------

  /** One task that meets a mismatch, on the first k bytes of its payload and what follows. */
  lemma RestartTask(w: World, base: Path, j: Job, after: seq<byte>, k: nat, files: set<Path>, dirs: set<Path>)
    requires ValidJob(j) && Placed(base, j, files, dirs) && files !! dirs && [] !in files
    requires TreeFits(w.tree, files, dirs) && Mismatch(w.tree, base, j)
    requires k <= |Payload(j) + after| && w.bytes == (Payload(j) + after)[..k]
    ensures
      var r := ReceiveTask(w, base, j.meta);
      var got := j.content[j.resume..] + after;
      r.ok ==>
        && 8 + |j.content| <= k && |j.content| <= |got|
        && IsFile(r.world.tree, Full(base, j))
        && r.world.tree[Full(base, j)] == File(got[..|j.content|], j.meta.mode)
        && r.world.bytes == got[..k - 8][|j.content|..] && r.world.room == w.room - |j.content|
    ensures k >= 8 + |j.content| && w.room >= |j.content| ==> ReceiveTask(w, base, j.meta).ok
  {
    CutPayload(j, after, k);
    if k >= 8 {
      var got := j.content[j.resume..] + after;
      var w' := w.(bytes := w.bytes[8..]);
      RestartNeedsWholeFile(w', base, j, files, dirs);
      if k >= 8 + |j.content| {
        assert got[..k - 8][..|j.content|] == got[..|j.content|];
      }
    }
  }

  /** The payloads of the i-th task and those after it. */
  function FromTask(js: seq<Job>, i: nat): (r: seq<byte>)
    requires i < |js| && forall j :: j in js ==> ValidJob(j)
    ensures Payloads(js) == Payloads(js[..i]) + r
  {
    PayloadsAround(js, i);
    Payload(js[i]) + Payloads(js[i + 1..])
  }

  /** The tasks before the i-th one, when they are aligned. */
  lemma BeforeTask(w: World, base: Path, js: seq<Job>, i: nat, k: nat, files: set<Path>, dirs: set<Path>)
    requires Layout(base, js, files, dirs) && TreeFits(w.tree, files, dirs)
    requires i < |js| && AllAligned(w.tree, base, js[..i])
    requires k <= |Payloads(js)| && w.bytes == Payloads(js)[..k]
    ensures ValidJob(js[i]) && Placed(base, js[i], files, dirs)
    ensures
      var r := ReceiveTasks(w, base, Metas(js[..i]));
      TreeFits(r.world.tree, files, dirs) && Outcome(w, base, js[..i], FromTask(js, i), k, r, dirs)
  {
    LayoutAround(base, js, i, files, dirs);
    JobsAligned(w, base, js[..i], FromTask(js, i), k, files, dirs);
  }

  /** The tasks before the i-th one do not touch its file. */
  lemma FileAsBefore(t: Tree, t': Tree, base: Path, js: seq<Job>, i: nat, files: set<Path>, dirs: set<Path>)
    requires Layout(base, js, files, dirs) && i < |js| && Grown(t, t', TouchedByAll(base, js[..i]), dirs)
    ensures Aligned(t, base, js[i]) ==> Aligned(t', base, js[i])
    ensures Mismatch(t, base, js[i]) ==> Mismatch(t', base, js[i])
  {
    LayoutAround(base, js, i, files, dirs);
  }

  lemma TasksFrom(w: World, base: Path, js: seq<Job>, i: nat)
    requires i < |js| && ReceiveTasks(w, base, Metas(js[..i])).ok
    ensures
      var r := ReceiveTasks(w, base, Metas(js[..i]));
      var r' := ReceiveTask(r.world, base, js[i].meta);
      var all := ReceiveTasks(w, base, Metas(js));
      && (!r'.ok ==> !all.ok && all.world == r'.world)
      && (r'.ok ==> var last := ReceiveTasks(r'.world, base, Metas(js[i + 1..]));
                    all.ok == last.ok && all.world == last.world)
  {
    MetasAround(js, i);
    ReceiveTasksAppend(w, base, Metas(js[..i]), Metas(js[i..]));
    ReceiveTasksCons(ReceiveTasks(w, base, Metas(js[..i])).world, base, js[i..]);
    assert js[i..][0] == js[i] && js[i..][1..] == js[i + 1..];
  }

  lemma TasksStop(w: World, base: Path, js: seq<Job>, i: nat)
    requires i < |js| && !ReceiveTasks(w, base, Metas(js[..i])).ok
    ensures
      var all := ReceiveTasks(w, base, Metas(js));
      !all.ok && all.world == ReceiveTasks(w, base, Metas(js[..i])).world
  {
    MetasAround(js, i);
    ReceiveTasksAppend(w, base, Metas(js[..i]), Metas(js[i..]));
  }

  /** The task loop of a session that is aligned up to a mismatch on its i-th task. */
  lemma MismatchInTasks(w: World, base: Path, js: seq<Job>, i: nat, k: nat, files: set<Path>, dirs: set<Path>)
    requires Layout(base, js, files, dirs) && TreeFits(w.tree, files, dirs)
    requires i < |js| && AllAligned(w.tree, base, js[..i]) && Mismatch(w.tree, base, js[i])
    requires k <= |Payloads(js)| && w.bytes == Payloads(js)[..k] && ReceiveTasks(w, base, Metas(js)).ok
    ensures Decided(ReceiveTasks(w, base, Metas(js)).world.tree, base, js, i)
  {
    var r := ReceiveTasks(w, base, Metas(js[..i]));
    if !r.ok {
      TasksStop(w, base, js, i);
    } else {
      var k' := MismatchReached(w, base, js, i, k, files, dirs);
      MismatchFrom(r.world, base, js, i, k', files, dirs);
      TasksFrom(w, base, js, i);
    }
  }

  lemma MismatchReached(w: World, base: Path, js: seq<Job>, i: nat, k: nat, files: set<Path>, dirs: set<Path>)
    returns (k': nat)
    requires Layout(base, js, files, dirs) && TreeFits(w.tree, files, dirs)
    requires i < |js| && AllAligned(w.tree, base, js[..i]) && Mismatch(w.tree, base, js[i])
    requires k <= |Payloads(js)| && w.bytes == Payloads(js)[..k] && ReceiveTasks(w, base, Metas(js[..i])).ok
    ensures
      var r := ReceiveTasks(w, base, Metas(js[..i]));
      && TreeFits(r.world.tree, files, dirs) && AllDone(r.world.tree, base, js[..i])
      && Mismatch(r.world.tree, base, js[i])
      && k' <= |FromTask(js, i)| && r.world.bytes == FromTask(js, i)[..k']
  {
    BeforeTask(w, base, js, i, k, files, dirs);
    FileAsBefore(w.tree, ReceiveTasks(w, base, Metas(js[..i])).world.tree, base, js, i, files, dirs);
    k' := k - |Payloads(js[..i])|;
  }

  /** The same from the task with the mismatch on. */
  lemma MismatchFrom(w: World, base: Path, js: seq<Job>, i: nat, k: nat, files: set<Path>, dirs: set<Path>)
    requires Layout(base, js, files, dirs) && TreeFits(w.tree, files, dirs)
    requires i < |js| && AllDone(w.tree, base, js[..i]) && Mismatch(w.tree, base, js[i])
    requires k <= |FromTask(js, i)| && w.bytes == FromTask(js, i)[..k]
    ensures
      var r := ReceiveTask(w, base, js[i].meta);
      r.ok ==> Decided(ReceiveTasks(r.world, base, Metas(js[i + 1..])).world.tree, base, js, i)
  {
    LayoutAround(base, js, i, files, dirs);
    RestartTask(w, base, js[i], Payloads(js[i + 1..]), k, files, dirs);
    TaskFrame(w, base, js[i], files, dirs);
    var r := ReceiveTask(w, base, js[i].meta);
    TasksFrame(r.world, base, js[i + 1..], files, dirs);
    if r.ok {
      DecidedAtEnd(w.tree, r.world.tree, ReceiveTasks(r.world, base, Metas(js[i + 1..])).world.tree, base, js, i,
        files, dirs);
    }
  }

  /** What follows the offset of the i-th task on the wire. */
  function OnWire(js: seq<Job>, i: nat): seq<byte>
    requires i < |js| && forall j :: j in js ==> ValidJob(j)
  {
    assert js[i] in js && ValidJob(js[i]);
    js[i].content[js[i].resume..] + Payloads(js[i + 1..])
  }

  /** What an acknowledgement says about the i-th task of js, when its offset was the first not to match:
      the file holds what followed its offset on the wire, so it is right exactly when that happens to
      begin with the file's content; the files before it are right. */
  ghost predicate Decided(t: Tree, base: Path, js: seq<Job>, i: nat)
    requires i < |js| && forall j :: j in js ==> ValidJob(j)
  {
    var j, got := js[i], OnWire(js, i);
    && AllDone(t, base, js[..i])
    && |j.content| <= |got|
    && Full(base, j) in t && t[Full(base, j)] == File(got[..|j.content|], j.meta.mode)
    && (Done(t, base, j) <==> j.content <= got)
  }

  lemma DecidedAtEnd(t: Tree, t': Tree, t'': Tree, base: Path, js: seq<Job>, i: nat, files: set<Path>, dirs: set<Path>)
    requires Layout(base, js, files, dirs) && i < |js| && !js[i].meta.isDir
    requires AllDone(t, base, js[..i]) && Grown(t, t', Touched(base, js[i]), dirs)
    requires Grown(t', t'', TouchedByAll(base, js[i + 1..]), dirs)
    requires
      var got := OnWire(js, i);
      && |js[i].content| <= |got|
      && Full(base, js[i]) in t' && t'[Full(base, js[i])] == File(got[..|js[i].content|], js[i].meta.mode)
    ensures Decided(t'', base, js, i)
  {
    LayoutAround(base, js, i, files, dirs);
    var front, j, rest := js[..i], js[i], js[i + 1..];
    TouchedIsFiles(base, front, files, dirs);
    var changed := Touched(base, j) + TouchedByAll(base, rest);
    GrownTwice(t, t', t'', Touched(base, j), TouchedByAll(base, rest), dirs);
    forall x | x in front
      ensures Done(t'', base, x)
    {
      assert !x.meta.isDir ==> Full(base, x) in TouchedByAll(base, front);
      DoneStays(t, t'', base, x, changed, files, dirs);
    }
    var got := OnWire(js, i);
    assert j.content <= got <==> got[..|j.content|] == j.content;
  }

  /** The task loop on what the first k bytes of a session leave for it. */
  function TaskLoop(w: World, base: Path, js: seq<Job>, k: nat): Progress
    requires forall j :: j in js ==> ValidJob(j)
    requires |js| < 0x8000_0000 && HeaderSize(js) <= k <= |Stream(js)|
  {
    ReceiveTasks(w.(bytes := Payloads(js)[..k - HeaderSize(js)]), base, Metas(js))
  }

  lemma StreamReachesLoop(w: World, base: Path, js: seq<Job>, k: nat)
    requires forall j :: j in js ==> ValidJob(j)
    requires |js| < 0x8000_0000 && k <= |Stream(js)| && w.bytes == Stream(js)[..k]
    ensures HandleClient(w, base).reply == Ack <==> k >= HeaderSize(js) && TaskLoop(w, base, js, k).ok
    ensures HandleClient(w, base).world.tree ==
            if k < HeaderSize(js) then w.tree else TaskLoop(w, base, js, k).world.tree
  {
    HandleModesOnStream(w, Receiver(base), js, k);
  }

  /** The first mismatch of a session, on any task: whatever part of the session arrives, if the server
      acknowledges it then the restarted file holds the bytes that followed its offset on the wire, and is
      right if and only if those begin with its content. */
  lemma MismatchDecidesFile(w: World, base: Path, js: seq<Job>, i: nat, k: nat, files: set<Path>, dirs: set<Path>)
    requires Layout(base, js, files, dirs) && |js| < 0x8000_0000 && TreeFits(w.tree, files, dirs)
    requires i < |js| && AllAligned(w.tree, base, js[..i]) && Mismatch(w.tree, base, js[i])
    requires k <= |Stream(js)| && w.bytes == Stream(js)[..k]
    ensures HandleClient(w, base).reply == Ack ==> Decided(HandleClient(w, base).world.tree, base, js, i)
  {
    StreamReachesLoop(w, base, js, k);
    if HandleClient(w, base).reply == Ack {
      MismatchInLoop(w, base, js, i, k, files, dirs);
    }
  }

  lemma MismatchInLoop(w: World, base: Path, js: seq<Job>, i: nat, k: nat, files: set<Path>, dirs: set<Path>)
    requires Layout(base, js, files, dirs) && |js| < 0x8000_0000 && TreeFits(w.tree, files, dirs)
    requires i < |js| && AllAligned(w.tree, base, js[..i]) && Mismatch(w.tree, base, js[i])
    requires HeaderSize(js) <= k <= |Stream(js)| && TaskLoop(w, base, js, k).ok
    ensures Decided(TaskLoop(w, base, js, k).world.tree, base, js, i)
  {
    var k', w' := AtLoop(w, base, js, k);
    MismatchInTasks(w', base, js, i, k', files, dirs);
  }

  /** The loop's own world and the number of bytes in it. */
  lemma AtLoop(w: World, base: Path, js: seq<Job>, k: nat) returns (k': nat, w': World)
    requires forall j :: j in js ==> ValidJob(j)
    requires |js| < 0x8000_0000 && HeaderSize(js) <= k <= |Stream(js)|
    ensures k' <= |Payloads(js)| && w'.tree == w.tree && w'.bytes == Payloads(js)[..k']
    ensures TaskLoop(w, base, js, k) == ReceiveTasks(w', base, Metas(js))
  {
    k' := k - HeaderSize(js);
    w' := w.(bytes := Payloads(js)[..k']);
  }

  /** A mismatch on the last file of a session that is otherwise aligned: the client sends fewer bytes than
      the server waits for, by the resume offset, so no delivery of the session is ever acknowledged. */
  lemma LastMismatchNeverAcks(w: World, base: Path, js: seq<Job>, k: nat, files: set<Path>, dirs: set<Path>)
    requires Layout(base, js, files, dirs) && 0 < |js| < 0x8000_0000 && TreeFits(w.tree, files, dirs)
    requires AllAligned(w.tree, base, js[..|js| - 1]) && Mismatch(w.tree, base, js[|js| - 1])
    requires k <= |Stream(js)| && w.bytes == Stream(js)[..k]
    ensures HandleClient(w, base).reply != Ack
  {
    if HandleClient(w, base).reply == Ack {
      MismatchDecidesFile(w, base, js, |js| - 1, k, files, dirs);
      LastOnWire(js);
      assert false;
    }
  }

  lemma LastOnWire(js: seq<Job>)
    requires js != [] && forall j :: j in js ==> ValidJob(j)
    ensures |OnWire(js, |js| - 1)| == |js[|js| - 1].content| - js[|js| - 1].resume
  {
    var i := |js| - 1;
    assert js[i] in js && ValidJob(js[i]);
    assert js[i + 1..] == [];
  }

  lemma AllAlignedThen(t: Tree, base: Path, js: seq<Job>)
    requires js != [] && (forall j :: j in js ==> ValidJob(j)) && AllAligned(t, base, js[..|js| - 1])
    requires PrefixAt(t, base, js[|js| - 1]) && !Mismatch(t, base, js[|js| - 1])
    ensures AllAligned(t, base, js)
  {
    var last := js[|js| - 1];
    assert last in js;
    AlignedUnlessMismatch(t, base, last);
    assert js == js[..|js| - 1] + [last];
  }

  /** For a session aligned up to its last task, completely delivered to a disk with room: acknowledged
      if and only if the last offset matches the length of the server's file. */
  lemma AckIffLastMatches(w: World, base: Path, js: seq<Job>, files: set<Path>, dirs: set<Path>)
    requires Layout(base, js, files, dirs) && 0 < |js| < 0x8000_0000 && TreeFits(w.tree, files, dirs)
    requires AllAligned(w.tree, base, js[..|js| - 1]) && PrefixAt(w.tree, base, js[|js| - 1])
    requires w.bytes == Stream(js) && w.room >= RoomForAll(js)
    ensures HandleClient(w, base).reply == Ack <==> !Mismatch(w.tree, base, js[|js| - 1])
  {
    if Mismatch(w.tree, base, js[|js| - 1]) {
      WholeSessionMismatches(w, base, js, files, dirs);
    } else {
      AllAlignedThen(w.tree, base, js);
      WholeSessionAcks(w, base, js, files, dirs);
    }
  }

  lemma WholeSessionMismatches(w: World, base: Path, js: seq<Job>, files: set<Path>, dirs: set<Path>)
    requires Layout(base, js, files, dirs) && 0 < |js| < 0x8000_0000 && TreeFits(w.tree, files, dirs)
    requires AllAligned(w.tree, base, js[..|js| - 1]) && Mismatch(w.tree, base, js[|js| - 1])
    requires w.bytes == Stream(js)
    ensures HandleClient(w, base).reply != Ack
  {
    assert Stream(js)[..|Stream(js)|] == Stream(js);
    LastMismatchNeverAcks(w, base, js, |Stream(js)|, files, dirs);
  }

  lemma WholeSessionAcks(w: World, base: Path, js: seq<Job>, files: set<Path>, dirs: set<Path>)
    requires Layout(base, js, files, dirs) && |js| < 0x8000_0000 && TreeFits(w.tree, files, dirs)
    requires AllAligned(w.tree, base, js) && w.bytes == Stream(js) && w.room >= RoomForAll(js)
    ensures HandleClient(w, base).reply == Ack
  {
    assert Stream(js)[..|Stream(js)|] == Stream(js);
    SessionOutcome(w, base, js, |Stream(js)|, files, dirs);
  }
}
