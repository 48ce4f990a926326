/** One session of client and server together, cut anywhere. */
module SyncSession {
  import opened Bytes
  import opened Results
  import opened FileTree
  import opened SyncWire
  import opened SyncServer

  /** One task of a session: its metadata, the source's bytes and the offset the client resumes at. */
  datatype Job = Job(meta: TaskMeta, content: seq<byte>, resume: int)

  ghost predicate ValidJob(j: Job) {
    && Sendable(j.meta) && NulFree(j.meta) && Fits(j.resume, 8)
    && (if j.meta.isDir then j.content == [] && j.resume == 0
        else j.meta.size == |j.content| && 0 <= j.resume <= |j.content|)
  }

  function Metas(js: seq<Job>): (ts: seq<TaskMeta>)
    ensures |ts| == |js|
    ensures forall i :: 0 <= i < |js| ==> ts[i] == js[i].meta
  {
    seq(|js|, i requires 0 <= i < |js| => js[i].meta)
  }

  lemma MetasSendable(js: seq<Job>)
    requires forall j :: j in js ==> ValidJob(j)
    ensures forall t :: t in Metas(js) ==> Sendable(t) && NulFree(t)
  {
    forall t | t in Metas(js)
      ensures Sendable(t) && NulFree(t)
    {
      var i :| 0 <= i < |js| && Metas(js)[i] == t;
      assert js[i] in js;
    }
  }

  /** The second part of a session: the resume offset and the bytes from there on. */
  function Payload(j: Job): seq<byte>
    requires ValidJob(j)
  {
    EncodeSigned(j.resume, 8) + j.content[j.resume..]
  }

  function Payloads(js: seq<Job>): seq<byte>
    requires forall j :: j in js ==> ValidJob(j)
  {
    if js == [] then [] else Payload(js[0]) + Payloads(js[1..])
  }

  /** All the bytes of a session, in the order the client sends them. */
  function Stream(js: seq<Job>): seq<byte>
    requires forall j :: j in js ==> ValidJob(j)
    requires |js| < 0x8000_0000
  {
    Widths();
    MetasSendable(js);
    [0] + (EncodeSigned(|js|, 4) + (EncodeTasks(Metas(js)) + Payloads(js)))
  }

  function RoomFor(j: Job): nat
    requires ValidJob(j)
  {
    |j.content| - j.resume
  }

  function RoomForAll(js: seq<Job>): nat
    requires forall j :: j in js ==> ValidJob(j)
  {
    if js == [] then 0 else RoomFor(js[0]) + RoomForAll(js[1..])
  }

  function Full(base: Path, j: Job): Path {
    base + j.meta.dest
  }

  // ---------- the shape of the destination ----------

  /** The jobs write files only at paths of files and directories only at paths of dirs. */
  ghost predicate Layout(base: Path, js: seq<Job>, files: set<Path>, dirs: set<Path>) {
    && files !! dirs
    && [] !in files
    && (forall j :: j in js ==> ValidJob(j) && Placed(base, j, files, dirs))
    && forall a, b :: 0 <= a < b < |js| && !js[a].meta.isDir && !js[b].meta.isDir ==>
       Full(base, js[a]) != Full(base, js[b])
  }

  ghost predicate Placed(base: Path, j: Job, files: set<Path>, dirs: set<Path>) {
    if j.meta.isDir then Chain(Full(base, j)) <= dirs
    else Full(base, j) in files && Ancestors(Full(base, j)) <= dirs
  }

  ghost predicate TreeFits(t: Tree, files: set<Path>, dirs: set<Path>) {
    && [] !in t
    && (forall p :: p in files && p in t ==> t[p].File?)
    && (forall p :: p in dirs && p in t ==> t[p].Dir?)
  }

  /** Only the paths of changed differ, except that directories of dirs may have been added. */
  ghost predicate Grown(t: Tree, t': Tree, changed: set<Path>, dirs: set<Path>) {
    && (forall p :: p !in changed && p !in dirs ==> (p in t <==> p in t') && (p in t ==> t'[p] == t[p]))
    && (forall p :: p in dirs && p in t ==> p in t' && t'[p] == t[p])
  }

  function Touched(base: Path, j: Job): set<Path> {
    if j.meta.isDir then {} else {Full(base, j)}
  }

  function TouchedByAll(base: Path, js: seq<Job>): set<Path> {
    if js == [] then {} else Touched(base, js[0]) + TouchedByAll(base, js[1..])
  }

  /** No offset mismatch: the server holds exactly the part that the client skips. */
  ghost predicate Aligned(t: Tree, base: Path, j: Job) {
    !j.meta.isDir && j.resume > 0 ==>
      IsFile(t, Full(base, j)) && 0 <= j.resume <= |j.content| && t[Full(base, j)].data == j.content[..j.resume]
  }

  /** The server's file, if any, is a beginning of the source. */
  ghost predicate PrefixAt(t: Tree, base: Path, j: Job) {
    !j.meta.isDir && IsFile(t, Full(base, j)) ==> t[Full(base, j)].data <= j.content
  }

  ghost predicate Done(t: Tree, base: Path, j: Job) {
    if j.meta.isDir then Full(base, j) == [] || (Full(base, j) in t && t[Full(base, j)].Dir?)
    else Full(base, j) in t && t[Full(base, j)] == File(j.content, j.meta.mode)
  }

  // ---------- one task of a stream cut after k bytes ----------

  lemma WithDirsFits(t: Tree, s: set<Path>, mode: nat, files: set<Path>, dirs: set<Path>)
    requires TreeFits(t, files, dirs) && files !! dirs && s <= dirs && [] !in s
    ensures TreeFits(WithDirs(t, s, mode), files, dirs)
    ensures Grown(t, WithDirs(t, s, mode), {}, dirs)
  {
  }

  lemma OpenSucceeds(t: Tree, p: Path, truncate: bool, files: set<Path>, dirs: set<Path>)
    requires TreeFits(t, files, dirs) && files !! dirs && p in files && p != [] && Ancestors(p) <= dirs
    requires Ancestors(p) <= t.Keys
    ensures Open(t, p, truncate).Some?
    ensures
      var o := Open(t, p, truncate).value;
      && TreeFits(o, files, dirs) && Grown(t, o, {p}, dirs)
      && o[p].data == (if p in t && !truncate then t[p].data else [])
  {
    ParentIsAncestor(p, |p|);
    assert p[..|p|] == p;
  }

  /** The first k bytes of the rest of content, and then of after. */
  lemma CutBody(content: seq<byte>, resume: nat, after: seq<byte>, k: nat, bytes: seq<byte>)
    requires resume <= |content| && k <= |content[resume..] + after|
    requires bytes == (content[resume..] + after)[..k]
    ensures
      var need := |content| - resume;
      && |bytes| == k
      && (k >= need ==> content[..resume] + bytes[..need] == content && bytes[need..] == after[..k - need])
      && (k < need ==> content[..resume] + bytes == content[..resume + k])
    ensures forall d :: content[..resume] <= d <= content[..resume] + bytes && |d| <= |content| ==> d <= content
  {
    var need := |content| - resume;
    if k < need {
      assert bytes == content[resume..resume + k];
    }
    if k >= need {
      assert bytes[..need] == content[resume..];
      assert bytes[need..] == after[..k - need];
    }
    forall d | content[..resume] <= d <= content[..resume] + bytes && |d| <= |content|
      ensures d <= content
    {
      forall i | 0 <= i < |d|
        ensures d[i] == content[i]
      {
        assert d[i] == (content[..resume] + bytes)[i];
        if i >= resume {
          assert bytes[i - resume] == (content[resume..] + after)[i - resume] == content[i];
        }
      }
    }
  }

  /** The receive loop on the beginning of what the client sends for one aligned file. */
  lemma LoopAligned(w: World, p: Path, content: seq<byte>, resume: nat, after: seq<byte>, k: nat)
    requires IsFile(w.tree, p) && resume <= |content| && w.tree[p].data == content[..resume]
    requires k <= |content[resume..] + after| && w.bytes == (content[resume..] + after)[..k]
    ensures
      var need := |content| - resume;
      var r := ReceiveLoop(w, p, resume, |content|);
      && IsFile(r.world.tree, p) && r.world.tree[p].data <= content
      && r.world.tree == SetData(w.tree, p, r.world.tree[p].data)
      && r.world.ending == w.ending
      && (r.ok <==> k >= need && w.room >= need)
      && (r.ok ==> && r.world.tree[p].data == content
                   && r.world.bytes == after[..k - need] && r.world.room == w.room - need)
      && (k < need <= w.room && w.ending.Eof? ==> r.world.tree[p].data == content[..resume + k])
  {
    CutBody(content, resume, after, k, w.bytes);
    ReceiveLoopResult(w, p, resume, |content|);
  }

  /** receiveFileData on the same. */
  lemma FileDataAligned(w: World, p: Path, j: Job, after: seq<byte>, k: nat, files: set<Path>, dirs: set<Path>)
    requires ValidJob(j) && !j.meta.isDir
    requires TreeFits(w.tree, files, dirs) && files !! dirs && p in files && p != []
    requires Ancestors(p) <= dirs && Ancestors(p) <= w.tree.Keys
    requires j.resume > 0 ==> p in w.tree && w.tree[p].data == j.content[..j.resume]
    requires k <= |j.content[j.resume..] + after| && w.bytes == (j.content[j.resume..] + after)[..k]
    ensures
      var r := ReceiveFileData(w, p, j.resume, |j.content|);
      && TreeFits(r.world.tree, files, dirs) && Grown(w.tree, r.world.tree, {p}, dirs)
      && IsFile(r.world.tree, p) && r.world.tree[p].data <= j.content
      && r.world.ending == w.ending
      && (r.ok <==> k >= RoomFor(j) && w.room >= RoomFor(j))
      && (r.ok ==> && r.world.tree[p].data == j.content
                   && r.world.bytes == after[..k - RoomFor(j)] && r.world.room == w.room - RoomFor(j))
      && (k < RoomFor(j) <= w.room && w.ending.Eof? ==> r.world.tree[p].data == j.content[..j.resume + k])
  {
    OpenSucceeds(w.tree, p, j.resume <= 0, files, dirs);
    var o := Open(w.tree, p, j.resume <= 0).value;
    assert o[p].data == j.content[..j.resume];
    LoopAligned(w.(tree := o), p, j.content, j.resume, after, k);
  }

  lemma DirectoryAligned(w: World, p: Path, mode: nat, files: set<Path>, dirs: set<Path>)
    requires TreeFits(w.tree, files, dirs) && files !! dirs && Chain(p) <= dirs
    ensures
      var r := ReceiveDirectory(w, p, mode);
      && r.ok && r.world == w.(tree := WithDirs(w.tree, Chain(p), mode))
      && TreeFits(r.world.tree, files, dirs) && Grown(w.tree, r.world.tree, {}, dirs)
  {
    CreateDirectoryAddsMissing(w.tree, p, mode);
    EmptyIsNoAncestor(p);
    WithDirsFits(w.tree, Chain(p), mode, files, dirs);
  }

  lemma FileAligned(w: World, p: Path, j: Job, after: seq<byte>, k: nat, files: set<Path>, dirs: set<Path>)
    requires ValidJob(j) && !j.meta.isDir
    requires TreeFits(w.tree, files, dirs) && files !! dirs && p in files && p != [] && Ancestors(p) <= dirs
    requires j.resume > 0 ==> p in w.tree && w.tree[p].data == j.content[..j.resume]
    requires k <= |j.content[j.resume..] + after| && w.bytes == (j.content[j.resume..] + after)[..k]
    ensures
      var r := ReceiveFile(w, p, j.meta, j.resume);
      && TreeFits(r.world.tree, files, dirs) && Grown(w.tree, r.world.tree, {p}, dirs)
      && IsFile(r.world.tree, p) && r.world.tree[p].data <= j.content
      && r.world.ending == w.ending
      && (r.ok <==> k >= RoomFor(j) && w.room >= RoomFor(j))
      && (r.ok ==> && r.world.tree[p] == File(j.content, j.meta.mode)
                   && r.world.bytes == after[..k - RoomFor(j)] && r.world.room == w.room - RoomFor(j))
      && (k < RoomFor(j) <= w.room && w.ending.Eof? ==> r.world.tree[p].data == j.content[..j.resume + k])
  {
    ParentChain(p);
    EmptyIsNoAncestor(p);
    CreateDirectoryAddsMissing(w.tree, Parent(p), DEFAULT_DIR_MODE);
    WithDirsFits(w.tree, Ancestors(p), DEFAULT_DIR_MODE, files, dirs);
    var w' := w.(tree := WithDirs(w.tree, Ancestors(p), DEFAULT_DIR_MODE));
    FileDataAligned(w', p, j, after, k, files, dirs);
  }

  lemma CutAfter(a: seq<byte>, b: seq<byte>, k: nat)
    requires |a| <= k <= |a + b|
    ensures (a + b)[..k][..|a|] == a && (a + b)[..k][|a|..] == b[..k - |a|]
  {
  }

  /** The offset field at the front of a cut payload. */
  lemma CutPayload(j: Job, after: seq<byte>, k: nat)
    requires ValidJob(j) && k <= |Payload(j) + after|
    ensures
      var bytes := (Payload(j) + after)[..k];
      var body := j.content[j.resume..] + after;
      && |bytes| == k && |Payload(j)| == 8 + RoomFor(j)
      && (k >= 8 ==> && DecodeSigned(bytes[..8]) == j.resume
                     && k - 8 <= |body| && bytes[8..] == body[..k - 8])
  {
    var offset := EncodeSigned(j.resume, 8);
    var body := j.content[j.resume..] + after;
    assert Payload(j) + after == offset + body;
    if k >= 8 {
      CutAfter(offset, body, k);
      SignedRoundTrip(j.resume, 8);
    }
  }

  /** One task of an aligned session of which k bytes arrive. */
  lemma TaskAligned(w: World, base: Path, j: Job, after: seq<byte>, k: nat, files: set<Path>, dirs: set<Path>)
    requires ValidJob(j) && Placed(base, j, files, dirs) && files !! dirs && [] !in files
    requires TreeFits(w.tree, files, dirs) && Aligned(w.tree, base, j)
    requires k <= |Payload(j) + after| && w.bytes == (Payload(j) + after)[..k]
    ensures
      var r := ReceiveTask(w, base, j.meta);
      && TreeFits(r.world.tree, files, dirs) && Grown(w.tree, r.world.tree, Touched(base, j), dirs)
      && r.world.ending == w.ending
      && (r.ok <==> k >= |Payload(j)| && w.room >= RoomFor(j))
      && (r.ok ==> && Done(r.world.tree, base, j)
                   && r.world.bytes == after[..k - |Payload(j)|] && r.world.room == w.room - RoomFor(j))
      && (PrefixAt(w.tree, base, j) ==> PrefixAt(r.world.tree, base, j))
  {
    CutPayload(j, after, k);
    var p := Full(base, j);
    if k >= 8 {
      var w' := w.(bytes := w.bytes[8..]);
      if j.meta.isDir {
        assert j.content[j.resume..] + after == after;
        DirectoryAligned(w', p, j.meta.mode, files, dirs);
      } else {
        FileAligned(w', p, j, after, k - 8, files, dirs);
      }
    }
  }

  lemma GrownTwice(t: Tree, t': Tree, t'': Tree, a: set<Path>, b: set<Path>, dirs: set<Path>)
    requires Grown(t, t', a, dirs) && Grown(t', t'', b, dirs)
    ensures Grown(t, t'', a + b, dirs)
  {
  }

  lemma {:induction false} TouchedIsFiles(base: Path, js: seq<Job>, files: set<Path>, dirs: set<Path>)
    requires Layout(base, js, files, dirs)
    ensures TouchedByAll(base, js) <= files
    ensures forall p :: p in TouchedByAll(base, js) <==> exists j :: j in js && !j.meta.isDir && p == Full(base, j)
  {
    if js != [] {
      LayoutTail(base, js, files, dirs);
      TouchedIsFiles(base, js[1..], files, dirs);
      assert js[0] in js;
      assert js == [js[0]] + js[1..];
    }
  }

  lemma LayoutTail(base: Path, js: seq<Job>, files: set<Path>, dirs: set<Path>)
    requires Layout(base, js, files, dirs) && js != []
    ensures Layout(base, js[1..], files, dirs)
    ensures forall j :: j in js[1..] && !j.meta.isDir && !js[0].meta.isDir ==> Full(base, j) != Full(base, js[0])
  {
    forall j | j in js[1..] && !j.meta.isDir && !js[0].meta.isDir
      ensures Full(base, j) != Full(base, js[0])
    {
      var i :| 0 <= i < |js[1..]| && js[1..][i] == j;
      assert js[i + 1] == j;
    }
  }

  /** What later jobs rely on survives an earlier one. */
  lemma LaterUnaffected(t: Tree, t': Tree, base: Path, first: Job, j: Job, files: set<Path>, dirs: set<Path>)
    requires files !! dirs && Placed(base, j, files, dirs) && Grown(t, t', Touched(base, first), dirs)
    requires !j.meta.isDir && !first.meta.isDir ==> Full(base, j) != Full(base, first)
    ensures Aligned(t, base, j) ==> Aligned(t', base, j)
    ensures PrefixAt(t, base, j) ==> PrefixAt(t', base, j)
  {
  }

  lemma DoneStays(t: Tree, t': Tree, base: Path, j: Job, changed: set<Path>, files: set<Path>, dirs: set<Path>)
    requires files !! dirs && Placed(base, j, files, dirs) && Grown(t, t', changed, dirs) && Done(t, base, j)
    requires !j.meta.isDir ==> Full(base, j) !in changed
    ensures Done(t', base, j)
  {
    if j.meta.isDir && Full(base, j) != [] {
      assert Full(base, j) in Chain(Full(base, j));
    }
  }

  ghost predicate AllDone(t: Tree, base: Path, js: seq<Job>) {
    forall j :: j in js ==> Done(t, base, j)
  }

  ghost predicate AllAligned(t: Tree, base: Path, js: seq<Job>) {
    forall j :: j in js ==> Aligned(t, base, j)
  }

  ghost predicate AllPrefixes(t: Tree, base: Path, js: seq<Job>) {
    forall j :: j in js ==> PrefixAt(t, base, j)
  }

  /** r is what becomes of w when k bytes of the payloads of js, followed by after, arrive. */
  ghost predicate Outcome(w: World, base: Path, js: seq<Job>, after: seq<byte>, k: nat, r: Progress, dirs: set<Path>)
    requires forall j :: j in js ==> ValidJob(j)
    requires k <= |Payloads(js) + after|
  {
    && Grown(w.tree, r.world.tree, TouchedByAll(base, js), dirs)
    && r.world.ending == w.ending
    && (r.ok <==> k >= |Payloads(js)| && w.room >= RoomForAll(js))
    && (r.ok ==> && AllDone(r.world.tree, base, js) && r.done == |js|
                 && r.world.bytes == after[..k - |Payloads(js)|] && r.world.room == w.room - RoomForAll(js))
    && (AllPrefixes(w.tree, base, js) ==> AllPrefixes(r.world.tree, base, js))
  }

  lemma OutcomeOfFailure(w: World, base: Path, js: seq<Job>, after: seq<byte>, k: nat, w': World,
                         files: set<Path>, dirs: set<Path>)
    requires Layout(base, js, files, dirs) && js != [] && k <= |Payloads(js) + after|
    requires Grown(w.tree, w'.tree, Touched(base, js[0]), dirs) && w'.ending == w.ending
    requires k < |Payload(js[0])| || w.room < RoomFor(js[0])
    requires PrefixAt(w.tree, base, js[0]) ==> PrefixAt(w'.tree, base, js[0])
    ensures Outcome(w, base, js, after, k, Progress(0, false, w'), dirs)
  {
    if AllPrefixes(w.tree, base, js) {
      LayoutTail(base, js, files, dirs);
      forall j | j in js
        ensures PrefixAt(w'.tree, base, j)
      {
        if j != js[0] {
          assert j in js[1..];
          LaterUnaffected(w.tree, w'.tree, base, js[0], j, files, dirs);
        } else {
          assert js[0] in js;
        }
      }
    }
  }

  lemma OutcomeInTwo(w: World, base: Path, js: seq<Job>, after: seq<byte>, k: nat, w': World, r: Progress,
                     files: set<Path>, dirs: set<Path>)
    requires Layout(base, js, files, dirs) && js != [] && k <= |Payloads(js) + after|
    requires k >= |Payload(js[0])| && w.room >= RoomFor(js[0])
    requires Grown(w.tree, w'.tree, Touched(base, js[0]), dirs) && w'.ending == w.ending
    requires w'.room == w.room - RoomFor(js[0])
    requires Done(w'.tree, base, js[0])
    requires (forall j :: j in js[1..] ==> ValidJob(j)) && k - |Payload(js[0])| <= |Payloads(js[1..]) + after|
    requires Outcome(w', base, js[1..], after, k - |Payload(js[0])|, r, dirs)
    ensures Outcome(w, base, js, after, k, r.(done := r.done + 1), dirs)
  {
    LayoutTail(base, js, files, dirs);
    TouchedIsFiles(base, js[1..], files, dirs);
    GrownTwice(w.tree, w'.tree, r.world.tree, Touched(base, js[0]), TouchedByAll(base, js[1..]), dirs);
    assert js[0] in js;
    if !js[0].meta.isDir {
      assert Full(base, js[0]) !in TouchedByAll(base, js[1..]);
    }
    DoneStays(w'.tree, r.world.tree, base, js[0], TouchedByAll(base, js[1..]), files, dirs);
    assert js == [js[0]] + js[1..];
    if AllPrefixes(w.tree, base, js) {
      forall j | j in js[1..]
        ensures PrefixAt(w'.tree, base, j)
      {
        LaterUnaffected(w.tree, w'.tree, base, js[0], j, files, dirs);
      }
      assert AllPrefixes(r.world.tree, base, js[1..]);
    }
  }

  lemma TailAligned(t: Tree, t': Tree, base: Path, js: seq<Job>, files: set<Path>, dirs: set<Path>)
    requires Layout(base, js, files, dirs) && js != [] && AllAligned(t, base, js)
    requires Grown(t, t', Touched(base, js[0]), dirs)
    ensures AllAligned(t', base, js[1..])
  {
    LayoutTail(base, js, files, dirs);
    forall j | j in js[1..]
      ensures Aligned(t', base, j)
    {
      assert j in js;
      LaterUnaffected(t, t', base, js[0], j, files, dirs);
    }
  }

  /** The task loop of a session without offset mismatch. */
  lemma {:induction false} JobsAligned(w: World, base: Path, js: seq<Job>, after: seq<byte>, k: nat,
                                       files: set<Path>, dirs: set<Path>)
    requires Layout(base, js, files, dirs) && TreeFits(w.tree, files, dirs) && AllAligned(w.tree, base, js)
    requires k <= |Payloads(js) + after| && w.bytes == (Payloads(js) + after)[..k]
    ensures TreeFits(ReceiveTasks(w, base, Metas(js)).world.tree, files, dirs)
    ensures Outcome(w, base, js, after, k, ReceiveTasks(w, base, Metas(js)), dirs)
    decreases |js|
  {
    if js == [] {
      OutcomeOfNothing(w, base, after, k, dirs);
    } else {
      var tail := Payloads(js[1..]) + after;
      assert js[0] in js;
      LayoutTail(base, js, files, dirs);
      PayloadsSplit(js, after);
      TaskAligned(w, base, js[0], tail, k, files, dirs);
      var r := ReceiveTask(w, base, js[0].meta);
      ReceiveTasksCons(w, base, js);
      if !r.ok {
        OutcomeOfFailure(w, base, js, after, k, r.world, files, dirs);
      } else {
        TailAligned(w.tree, r.world.tree, base, js, files, dirs);
        JobsAligned(r.world, base, js[1..], after, k - |Payload(js[0])|, files, dirs);
        OutcomeInTwo(w, base, js, after, k, r.world, ReceiveTasks(r.world, base, Metas(js[1..])), files, dirs);
      }
    }
  }

  lemma PayloadsSplit(js: seq<Job>, after: seq<byte>)
    requires js != [] && forall j :: j in js ==> ValidJob(j)
    ensures Payloads(js) + after == Payload(js[0]) + (Payloads(js[1..]) + after)
  {
  }

  lemma OutcomeOfNothing(w: World, base: Path, after: seq<byte>, k: nat, dirs: set<Path>)
    requires k <= |Payloads([]) + after| && w.bytes == (Payloads([]) + after)[..k]
    ensures ReceiveTasks(w, base, []) == Progress(0, true, w) &&
            Outcome(w, base, [], after, k, Progress(0, true, w), dirs)
  {
    assert Payloads([]) + after == after;
  }

  lemma ReceiveTasksCons(w: World, base: Path, js: seq<Job>)
    requires js != []
    ensures
      var r := ReceiveTask(w, base, js[0].meta);
      && (!r.ok ==> ReceiveTasks(w, base, Metas(js)) == Progress(0, false, r.world))
      && (r.ok ==> var p := ReceiveTasks(r.world, base, Metas(js[1..]));
                   ReceiveTasks(w, base, Metas(js)) == p.(done := p.done + 1))
  {
    assert Metas(js)[0] == js[0].meta && Metas(js)[1..] == Metas(js[1..]);
  }

  // ---------- a whole session ----------

  /** The session after its mode byte. */
  function SyncPart(js: seq<Job>): seq<byte>
    requires forall j :: j in js ==> ValidJob(j)
    requires |js| < 0x8000_0000
  {
    Widths();
    EncodeSigned(|js|, 4) + TaskPart(js)
  }

  function TaskPart(js: seq<Job>): seq<byte>
    requires forall j :: j in js ==> ValidJob(j)
  {
    MetasSendable(js);
    EncodeTasks(Metas(js)) + Payloads(js)
  }

  /** The bytes before the first resume offset. */
  function HeaderSize(js: seq<Job>): (n: nat)
    requires forall j :: j in js ==> ValidJob(j)
    requires |js| < 0x8000_0000
    ensures n >= 5 && n + |Payloads(js)| == |Stream(js)|
  {
    MetasSendable(js);
    5 + |EncodeTasks(Metas(js))|
  }

  lemma CutStream(js: seq<Job>, k: nat)
    requires forall j :: j in js ==> ValidJob(j)
    requires |js| < 0x8000_0000 && 1 <= k <= |Stream(js)|
    ensures k - 1 <= |SyncPart(js)|
    ensures Stream(js)[..k][..1] == [0] && Stream(js)[..k][1..] == SyncPart(js)[..k - 1]
  {
    assert Stream(js) == [0] + SyncPart(js);
    CutAfter([0], SyncPart(js), k);
  }

  lemma HandleSyncShort(w: World, receive: (World, seq<TaskMeta>) -> Progress)
    requires |w.bytes| < 4
    ensures HandleSync(w, receive) == Session(Nak, [], 0, w.(bytes := []))
  {
    assert ReceiveBytes(w, 4) == Got(None, w.(bytes := []));
  }

  lemma HandleSyncDecoded(w: World, receive: (World, seq<TaskMeta>) -> Progress)
    requires |w.bytes| >= 4
    ensures HandleSync(w, receive) ==
            match DecodeTasks(w.bytes[4..], DecodeSigned(w.bytes[..4]))
            case None => Session(Nak, [], 0, w.(bytes := []))
            case Some(ts) => AfterMetadata(w.(bytes := ts.rest), receive, ts.value)
  {
    assert ReceiveBytes(w, 4) == Got(Some(w.bytes[..4]), w.(bytes := w.bytes[4..]));
  }

  /** The count and the metadata at the front of the cut part. */
  lemma SyncPartDecodes(js: seq<Job>, k: nat)
    requires forall j :: j in js ==> ValidJob(j)
    requires |js| < 0x8000_0000 && 5 <= k <= |SyncPart(js)| + 1
    ensures
      var bytes := SyncPart(js)[..k - 1];
      DecodeTasks(bytes[4..], DecodeSigned(bytes[..4])) ==
      if k < HeaderSize(js) then None else Some(Read(Metas(js), Payloads(js)[..k - HeaderSize(js)]))
  {
    MetasSendable(js);
    SyncPartCut(js, k);
    var n := k - 5;
    TasksDecodeIffComplete(Metas(js), Payloads(js), n);
    assert n - |EncodeTasks(Metas(js))| == k - HeaderSize(js);
  }

  lemma SyncPartCut(js: seq<Job>, k: nat)
    requires forall j :: j in js ==> ValidJob(j)
    requires |js| < 0x8000_0000 && 5 <= k <= |SyncPart(js)| + 1
    ensures
      var bytes := SyncPart(js)[..k - 1];
      && k - 5 <= |TaskPart(js)|
      && DecodeSigned(bytes[..4]) == |js| && bytes[4..] == TaskPart(js)[..k - 5]
  {
    Widths();
    CutAfter(EncodeSigned(|js|, 4), TaskPart(js), k - 1);
    SignedRoundTrip(|js|, 4);
  }

  /** What the sync mode does with the first k - 1 bytes of its part: everything before the task loop. */
  lemma HandleSyncOnStream(w: World, receive: (World, seq<TaskMeta>) -> Progress, js: seq<Job>, k: nat)
    requires forall j :: j in js ==> ValidJob(j)
    requires |js| < 0x8000_0000 && 1 <= k <= |SyncPart(js)| + 1 && w.bytes == SyncPart(js)[..k - 1]
    ensures k < HeaderSize(js) ==> HandleSync(w, receive) == Session(Nak, [], 0, w.(bytes := []))
    ensures k >= HeaderSize(js) ==>
      HandleSync(w, receive) == AfterMetadata(w.(bytes := Payloads(js)[..k - HeaderSize(js)]), receive, Metas(js))
  {
    if k < 5 {
      HandleSyncShort(w, receive);
    } else {
      SyncPartDecodes(js, k);
      HandleSyncDecoded(w, receive);
    }
  }

  lemma NoMode(w: World, receive: (World, seq<TaskMeta>) -> Progress)
    requires w.bytes == []
    ensures HandleModes(w, receive) == Session(Closed, [], 0, w.(bytes := []))
  {
  }

  lemma ModeZero(w: World, receive: (World, seq<TaskMeta>) -> Progress)
    requires |w.bytes| >= 1 && w.bytes[..1] == [0]
    ensures HandleModes(w, receive) == HandleSync(w.(bytes := w.bytes[1..]), receive)
  {
    assert ReceiveBytes(w, 1) == Got(Some([0]), w.(bytes := w.bytes[1..]));
  }

  /** What handleClient does with the first k bytes of a session. */
  lemma HandleModesOnStream(w: World, receive: (World, seq<TaskMeta>) -> Progress, js: seq<Job>, k: nat)
    requires forall j :: j in js ==> ValidJob(j)
    requires |js| < 0x8000_0000 && k <= |Stream(js)| && w.bytes == Stream(js)[..k]
    ensures k < HeaderSize(js) ==>
      HandleModes(w, receive) == Session(if k == 0 then Closed else Nak, [], 0, w.(bytes := []))
    ensures k >= HeaderSize(js) ==>
      HandleModes(w, receive) == AfterMetadata(w.(bytes := Payloads(js)[..k - HeaderSize(js)]), receive, Metas(js))
  {
    if k == 0 {
      NoMode(w, receive);
    } else {
      CutStream(js, k);
      ModeZero(w, receive);
      HandleSyncOnStream(w.(bytes := w.bytes[1..]), receive, js, k);
    }
  }

  /** s is how the server deals with the first k bytes of a session: it acknowledges exactly when every
      byte arrives and the disk takes it; an acknowledged session was decoded exactly, left no byte over
      and made every file equal to its source; and whether or not it is acknowledged, files that were
      beginnings of their sources still are, and nothing else changes. */
  ghost predicate Settled(w: World, base: Path, js: seq<Job>, k: nat, s: Session, files: set<Path>, dirs: set<Path>)
    requires forall j :: j in js ==> ValidJob(j)
    requires |js| < 0x8000_0000
  {
    && (s.reply == Ack <==> k == |Stream(js)| && w.room >= RoomForAll(js))
    && (s.reply == Ack ==> && s.tasks == Metas(js) && s.processed == |js| && s.world.bytes == []
                           && AllDone(s.world.tree, base, js))
    && (s.reply != Ack ==> s.reply == if k == 0 then Closed else Nak)
    && TreeFits(s.world.tree, files, dirs)
    && Grown(w.tree, s.world.tree, TouchedByAll(base, js), dirs)
    && (AllPrefixes(w.tree, base, js) ==> AllPrefixes(s.world.tree, base, js))
  }

  lemma SettledEarly(w: World, base: Path, js: seq<Job>, k: nat, files: set<Path>, dirs: set<Path>)
    requires Layout(base, js, files, dirs) && TreeFits(w.tree, files, dirs)
    requires |js| < 0x8000_0000 && k < |Stream(js)|
    ensures Settled(w, base, js, k, Session(if k == 0 then Closed else Nak, [], 0, w.(bytes := [])), files, dirs)
  {
  }

  lemma SettledByTasks(w: World, base: Path, js: seq<Job>, k: nat, rest: seq<byte>, files: set<Path>, dirs: set<Path>)
    requires Layout(base, js, files, dirs) && TreeFits(w.tree, files, dirs) && AllAligned(w.tree, base, js)
    requires |js| < 0x8000_0000 && HeaderSize(js) <= k <= |Stream(js)| && rest == Payloads(js)[..k - HeaderSize(js)]
    ensures Settled(w, base, js, k, AfterMetadata(w.(bytes := rest), Receiver(base), Metas(js)), files, dirs)
  {
    assert Payloads(js) + [] == Payloads(js);
    JobsAligned(w.(bytes := rest), base, js, [], |rest|, files, dirs);
  }

  /** The main result for one session without offset mismatch, whatever part of it arrives. */
  lemma SessionOutcome(w: World, base: Path, js: seq<Job>, k: nat, files: set<Path>, dirs: set<Path>)
    requires Layout(base, js, files, dirs) && TreeFits(w.tree, files, dirs) && AllAligned(w.tree, base, js)
    requires |js| < 0x8000_0000 && k <= |Stream(js)| && w.bytes == Stream(js)[..k]
    ensures Settled(w, base, js, k, HandleClient(w, base), files, dirs)
  {
    HandleModesOnStream(w, Receiver(base), js, k);
    if k < HeaderSize(js) {
      SettledEarly(w, base, js, k, files, dirs);
    } else {
      SettledByTasks(w, base, js, k, Payloads(js)[..k - HeaderSize(js)], files, dirs);
    }
  }
}
