/** Sessions whose offsets match the server's files in length only. The recorded total is never compared with
    the source, so a source that has changed since the record was saved is resumed all the same. */
module SyncChanged {
  import opened Bytes
  import opened FileTree
  import opened SyncWire
  import opened SyncServer
  import opened SyncSession
  import opened SyncRestart
  import opened Network
  import opened SyncClient
  import opened SyncRuns
  import opened ProgressRecord

  /** Every offset passes the test that the server makes. */
  ghost predicate LengthsMatch(t: Tree, base: Path, js: seq<Job>) {
    forall j :: j in js ==> !Mismatch(t, base, j)
  }

  /** The server's file begins as the source does, up to where the client resumes. */
  ghost predicate BeginsRight(t: Tree, base: Path, j: Job) {
    !j.meta.isDir && j.resume > 0 ==>
      IsFile(t, Full(base, j)) && j.resume <= |j.content| && t[Full(base, j)].data == j.content[..j.resume]
  }

  // ---------- the session that the server sees ----------

  /** The job that sends the same bytes and for which the server's file is the right beginning. */
  function Seen(t: Tree, base: Path, j: Job): Job {
    if !j.meta.isDir && 0 < j.resume <= |j.content| && IsFile(t, Full(base, j))
    then j.(content := t[Full(base, j)].data + j.content[j.resume..])
    else j
  }

  function AllSeen(t: Tree, base: Path, js: seq<Job>): (r: seq<Job>)
    ensures |r| == |js| && forall i :: 0 <= i < |js| ==> r[i] == Seen(t, base, js[i])
  {
    seq(|js|, i requires 0 <= i < |js| => Seen(t, base, js[i]))
  }

  lemma SeenJob(t: Tree, base: Path, j: Job)
    requires ValidJob(j) && !Mismatch(t, base, j)
    ensures ValidJob(Seen(t, base, j)) && Aligned(t, base, Seen(t, base, j))
    ensures Seen(t, base, j).meta == j.meta
    ensures Payload(Seen(t, base, j)) == Payload(j) && RoomFor(Seen(t, base, j)) == RoomFor(j)
  {
    if Seen(t, base, j) != j {
      var data, rest := t[Full(base, j)].data, j.content[j.resume..];
      assert (data + rest)[|data|..] == rest && (data + rest)[..|data|] == data;
    }
  }

  lemma SeenIn(t: Tree, base: Path, js: seq<Job>)
    requires (forall j :: j in js ==> ValidJob(j)) && LengthsMatch(t, base, js)
    ensures forall j :: j in AllSeen(t, base, js) ==> ValidJob(j) && Aligned(t, base, j)
    ensures Metas(AllSeen(t, base, js)) == Metas(js)
  {
    var seen := AllSeen(t, base, js);
    forall i | 0 <= i < |js|
      ensures ValidJob(seen[i]) && Aligned(t, base, seen[i]) && seen[i].meta == js[i].meta
    {
      assert js[i] in js;
      SeenJob(t, base, js[i]);
    }
  }

  lemma {:induction false} SeenPayloads(t: Tree, base: Path, js: seq<Job>)
    requires (forall j :: j in js ==> ValidJob(j)) && LengthsMatch(t, base, js)
    ensures forall j :: j in AllSeen(t, base, js) ==> ValidJob(j)
    ensures Payloads(AllSeen(t, base, js)) == Payloads(js) && RoomForAll(AllSeen(t, base, js)) == RoomForAll(js)
    decreases |js|
  {
    SeenIn(t, base, js);
    if js != [] {
      assert js[0] in js;
      SeenJob(t, base, js[0]);
      SeenPayloads(t, base, js[1..]);
      assert AllSeen(t, base, js)[1..] == AllSeen(t, base, js[1..]);
    }
  }

  lemma SeenLayout(t: Tree, base: Path, js: seq<Job>, files: set<Path>, dirs: set<Path>)
    requires Layout(base, js, files, dirs) && LengthsMatch(t, base, js)
    ensures Layout(base, AllSeen(t, base, js), files, dirs)
  {
    SeenIn(t, base, js);
    var seen := AllSeen(t, base, js);
    forall j | j in seen
      ensures Placed(base, j, files, dirs)
    {
      var i :| 0 <= i < |seen| && seen[i] == j;
      assert js[i] in js;
    }
  }

  /** Both jobs put the same bytes on the wire. */
  lemma SeenStream(t: Tree, base: Path, js: seq<Job>)
    requires (forall j :: j in js ==> ValidJob(j)) && |js| < 0x8000_0000 && LengthsMatch(t, base, js)
    ensures forall j :: j in AllSeen(t, base, js) ==> ValidJob(j)
    ensures Stream(AllSeen(t, base, js)) == Stream(js)
  {
    SeenIn(t, base, js);
    SeenPayloads(t, base, js);
  }

  // ---------- what an acknowledgement is worth ----------

  /** s is how the server deals with a session whose offsets match in length. */
  ghost predicate SettledByLength(w: World, base: Path, js: seq<Job>, k: nat, s: SyncServer.Session)
    requires (forall j :: j in js ==> ValidJob(j)) && |js| < 0x8000_0000
  {
    && (s.reply == Ack <==> k == |Stream(js)| && w.room >= RoomForAll(js))
    && (s.reply == Ack ==> forall j :: j in js ==> (Done(s.world.tree, base, j) <==> BeginsRight(w.tree, base, j)))
  }

  lemma SeenDone(t: Tree, t': Tree, base: Path, j: Job)
    requires ValidJob(j) && !Mismatch(t, base, j) && Done(t', base, Seen(t, base, j))
    ensures Done(t', base, j) <==> BeginsRight(t, base, j)
  {
    if !j.meta.isDir && j.resume > 0 {
      var data := t[Full(base, j)].data;
      assert j.content == j.content[..j.resume] + j.content[j.resume..];
      assert (data + j.content[j.resume..])[..j.resume] == data;
    }
  }

  /** A session of any length whose offsets match in length, cut anywhere: it is acknowledged exactly when
      everything arrives and fits, and then each file is right if and only if the part that the client
      skipped was right before. */
  lemma SessionByLength(w: World, base: Path, js: seq<Job>, k: nat, files: set<Path>, dirs: set<Path>)
    requires Layout(base, js, files, dirs) && TreeFits(w.tree, files, dirs) && LengthsMatch(w.tree, base, js)
    requires |js| < 0x8000_0000 && k <= |Stream(js)| && w.bytes == Stream(js)[..k]
    ensures SettledByLength(w, base, js, k, HandleClient(w, base))
  {
    var seen := AllSeen(w.tree, base, js);
    SeenIn(w.tree, base, js);
    SeenStream(w.tree, base, js);
    SeenPayloads(w.tree, base, js);
    SeenLayout(w.tree, base, js, files, dirs);
    SessionOutcome(w, base, seen, k, files, dirs);
    SettledAsSeen(w, base, js, k, HandleClient(w, base), files, dirs);
  }

  lemma SettledAsSeen(w: World, base: Path, js: seq<Job>, k: nat, s: SyncServer.Session, files: set<Path>,
                      dirs: set<Path>)
    requires (forall j :: j in js ==> ValidJob(j)) && |js| < 0x8000_0000 && LengthsMatch(w.tree, base, js)
    requires forall j :: j in AllSeen(w.tree, base, js) ==> ValidJob(j)
    requires Stream(AllSeen(w.tree, base, js)) == Stream(js)
    requires RoomForAll(AllSeen(w.tree, base, js)) == RoomForAll(js)
    requires Settled(w, base, AllSeen(w.tree, base, js), k, s, files, dirs)
    ensures SettledByLength(w, base, js, k, s)
  {
    var seen := AllSeen(w.tree, base, js);
    if s.reply == Ack {
      forall j | j in js
        ensures Done(s.world.tree, base, j) <==> BeginsRight(w.tree, base, j)
      {
        var i :| 0 <= i < |js| && js[i] == j;
        assert seen[i] in seen;
        SeenDone(w.tree, s.world.tree, base, j);
      }
    }
  }

  /** The same for a whole visit of the client, with whatever records and whatever files on the server. */
  lemma VisitByLength(g: Target, st: State, v: Visit)
    requires Serves(g, st, v) && TreeFits(st.tree, g.files, g.dirs) && NoMismatch(g, st, v)
    ensures forall j :: j in JobsOf(st, v) ==> ValidJob(j)
    ensures
      var r, js := Visiting(st, v, g.base), JobsOf(st, v);
      r.reply == Ack ==> forall j :: j in js ==> (Done(r.state.tree, g.base, j) <==> BeginsRight(st.tree, g.base, j))
  {
    ArrivedIsPrefix(st, v);
    var sent := SyncRemote(Net([], true, v.accept), st.records, v.sources, v.resume).net.sent;
    var k := Min(v.delivered, |sent|);
    SessionByLength(World(st.tree, sent[..k], v.ending, v.room), g.base, JobsOf(st, v), k, g.files, g.dirs);
  }

  // ---------- a changed source ----------

  const A: Path := [97]
  const MODE: nat := 0x1A4

  function OnlyTask(a: seq<byte>): seq<Job> {
    [Job(TaskMeta(false, A, A, MODE, |a|), a, 4096)]
  }

  /** The server has a block of an older version, the client a record of that block, and the source is now a. */
  function Stale(b: seq<byte>, total: nat): State {
    State(map[A := File(b, MODE)], map[A := Record(4096, total)])
  }

  lemma StaleTask(a: seq<byte>, b: seq<byte>, total: nat)
    requires 4096 < |a| < 0x1_0000_0000 && |b| == 4096 && total > 0
    ensures ValidSource(Source(TaskMeta(false, A, A, MODE, |a|), a))
    ensures Jobs(Stale(b, total).records, [Source(TaskMeta(false, A, A, MODE, |a|), a)], true) == OnlyTask(a)
    ensures Layout([], OnlyTask(a), {A}, {}) && TreeFits(Stale(b, total).tree, {A}, {})
    ensures LengthsMatch(Stale(b, total).tree, [], OnlyTask(a))
  {
    Widths();
    assert |A| == 1 && Ancestors(A) == {} && [] + A == A;
    assert SpaceFree(A);
  }

  /** The source has changed in its first block since the record was saved: the session is acknowledged, and
      the file is neither the old nor the new version. */
  lemma ChangedSourceAcked(a: seq<byte>, b: seq<byte>, total: nat)
    requires 4096 < |a| < 0x1_0000_0000 && |b| == 4096 && total > 0 && b != a[..4096]
    ensures Layout([], OnlyTask(a), {A}, {})
    ensures
      var k := |Stream(OnlyTask(a))|;
      var v := Visit([Source(TaskMeta(false, A, A, MODE, |a|), a)], true, k, k, Eof, |a|);
      && Proper(v)
      && var r := Visiting(Stale(b, total), v, []);
         r.reply == Ack && !Done(r.state.tree, [], OnlyTask(a)[0])
  {
    StaleTask(a, b, total);
    var js, st := OnlyTask(a), Stale(b, total);
    var k := |Stream(js)|;
    var v := Visit([Source(TaskMeta(false, A, A, MODE, |a|), a)], true, k, k, Eof, |a|);
    ArrivedIsPrefix(st, v);
    var w := World(st.tree, Stream(js)[..k], Eof, |a|);
    SessionByLength(w, [], js, k, {A}, {});
    assert RoomForAll(js) == |a| - 4096 + RoomForAll([]);
    assert js[0] in js && [] + A == A;
  }
}
