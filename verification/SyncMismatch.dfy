/** An acknowledgement does not vouch for the files when an offset mismatch hits a task that is not the
    last one: the server then takes bytes of the next task for bytes of the restarted file, and the session
    can still come out even. Two visits of an ordinary client get there: the first is cut inside a block,
    the second resumes. */
module SyncMismatch {
  import opened Bytes
  import opened Results
  import opened FileTree
  import opened SyncWire
  import opened SyncServer
  import opened SyncSession
  import opened SyncRestart
  import opened SyncClient
  import opened SyncRuns
  import opened SyncCut
  import opened ProgressRecord

  const A: Path := [97]
  const B: Path := [98]
  const MODE: nat := 0x1A4

  /** File a is a little longer than a block, and its second block does not begin as its first; file b is a
      block whose last eight bytes read as the number 4096. */
  ghost predicate Awkward(a: seq<byte>, b: seq<byte>) {
    && 4098 <= |a| < 0x1_0000_0000 && a[0] != a[4096]
    && |b| == 4096 && Fits(4096, 8) && b[4088..] == EncodeSigned(4096, 8)
  }

  function Sources(a: seq<byte>, b: seq<byte>): seq<Source> {
    [Source(TaskMeta(false, A, A, MODE, |a|), a), Source(TaskMeta(false, B, B, MODE, |b|), b)]
  }

  /** The two tasks when the client starts a at the given offset. */
  function TwoTasks(a: seq<byte>, b: seq<byte>, resume: nat): seq<Job> {
    [Job(TaskMeta(false, A, A, MODE, |a|), a, resume), Job(TaskMeta(false, B, B, MODE, |b|), b, 0)]
  }

  function Goal(a: seq<byte>, b: seq<byte>): Target {
    Target([], {A, B}, {}, map[A := a, B := b])
  }

  /** The server holds b from an earlier session, and the client has no record. */
  function Start(b: seq<byte>): State {
    State(map[B := File(b, MODE)], map[])
  }

  lemma TasksFit(a: seq<byte>, b: seq<byte>, resume: nat)
    requires Awkward(a, b) && (resume == 0 || resume == 4096)
    ensures Layout([], TwoTasks(a, b, resume), {A, B}, {})
    ensures forall s :: s in Sources(a, b) ==> ValidSource(s)
    ensures DistinctDests(Sources(a, b)) && |TwoTasks(a, b, resume)| == 2
  {
    Widths();
    assert |A| == 1 && |B| == 1;
    assert Ancestors(A) == {} && Ancestors(B) == {};
    assert [] + A == A && [] + B == B;
  }

  // ---------- the first visit ----------

  /** The network takes the given number of bytes of a, and loses some of the last ones. */
  function CutVisit(a: seq<byte>, b: seq<byte>, taken: nat, lost: nat): Visit
    requires Layout([], TwoTasks(a, b, 0), {A, B}, {}) && lost <= taken
  {
    var js := TwoTasks(a, b, 0);
    var k := HeaderSize(js) + 8 + taken;
    Visit(Sources(a, b), true, k, k - lost, Eof, RoomForAll(js))
  }

  lemma CutVisitCalls(a: seq<byte>, b: seq<byte>, taken: nat, lost: nat)
    requires Awkward(a, b) && lost <= taken < |a|
    ensures Layout([], TwoTasks(a, b, 0), {A, B}, {})
    ensures JobsOf(Start(b), CutVisit(a, b, taken, lost)) == TwoTasks(a, b, 0)
    ensures Calls(Goal(a, b), Start(b), CutVisit(a, b, taken, lost))
  {
    TasksFit(a, b, 0);
    var v := CutVisit(a, b, taken, lost);
    StartJobs(a, b, v);
    StartIsSound(a, b, v);
    assert Serves(Goal(a, b), Start(b), v);
  }

  lemma StartJobs(a: seq<byte>, b: seq<byte>, v: Visit)
    requires Awkward(a, b) && v.sources == Sources(a, b)
    ensures JobsOf(Start(b), v) == TwoTasks(a, b, 0)
  {
  }

  lemma StartIsSound(a: seq<byte>, b: seq<byte>, v: Visit)
    requires Awkward(a, b) && JobsOf(Start(b), v) == TwoTasks(a, b, 0)
    ensures Sound(Goal(a, b), Start(b).tree) && NoMismatch(Goal(a, b), Start(b), v)
    ensures forall j :: j in TwoTasks(a, b, 0) && !j.meta.isDir ==>
      Full([], j) in Goal(a, b).content && Goal(a, b).content[Full([], j)] == j.content
  {
    assert [] + A == A && [] + B == B;
  }

  lemma CutVisitStops(a: seq<byte>, b: seq<byte>, taken: nat, lost: nat)
    requires Awkward(a, b) && lost <= taken < |a|
    ensures Layout([], TwoTasks(a, b, 0), {A, B}, {})
    ensures JobsOf(Start(b), CutVisit(a, b, taken, lost)) == TwoTasks(a, b, 0)
    ensures Calls(Goal(a, b), Start(b), CutVisit(a, b, taken, lost))
    ensures StopIn(Start(b), CutVisit(a, b, taken, lost)) == Some(Stop(0, taken))
    ensures LengthIn(Goal(a, b), Start(b), CutVisit(a, b, taken, lost), 0) == Some(taken - lost)
  {
    CutVisitCalls(a, b, taken, lost);
    var js, v := TwoTasks(a, b, 0), CutVisit(a, b, taken, lost);
    CutBytes(a, b, taken, lost);
    FirstLength(Start(b).tree, js, 8 + taken - lost, RoomForAll(js));
  }

  lemma CutBytes(a: seq<byte>, b: seq<byte>, taken: nat, lost: nat)
    requires Awkward(a, b) && lost <= taken < |a| && Layout([], TwoTasks(a, b, 0), {A, B}, {})
    ensures Taken(CutVisit(a, b, taken, lost), TwoTasks(a, b, 0)) == 8 + taken
    ensures Arrived(CutVisit(a, b, taken, lost), TwoTasks(a, b, 0)) == 8 + taken - lost
    ensures StopOf(TwoTasks(a, b, 0), 8 + taken) == Some(Stop(0, taken))
  {
    var js := TwoTasks(a, b, 0);
    assert js[0] in js && |Payload(js[0])| == 8 + |a|;
    assert |Payloads(js)| == |Payload(js[0])| + |Payloads(js[1..])|;
  }

  lemma FirstLength(t: Tree, js: seq<Job>, k: nat, room: nat)
    requires js != [] && js[0] in js && (forall j :: j in js ==> ValidJob(j)) && js[0].resume == 0
    requires 8 <= k && k - 8 <= room
    ensures LengthAfter(t, [], js, 0, k, Eof, room) == Some(k - 8)
  {
    assert js[..0] == [] && Payloads([]) == [] && RoomForAll([]) == 0;
  }

  /** Where the first visit leaves them when nothing is lost: the server one byte further than the client's
      record says. */
  lemma AfterCutVisit(a: seq<byte>, b: seq<byte>)
    requires Awkward(a, b)
    ensures Layout([], TwoTasks(a, b, 0), {A, B}, {}) && Proper(CutVisit(a, b, 4097, 0))
    ensures
      var st := Visiting(Start(b), CutVisit(a, b, 4097, 0), []).state;
      && TreeFits(st.tree, {A, B}, {})
      && A in st.tree && st.tree[A].File? && st.tree[A].data == a[..4097]
      && B in st.tree && st.tree[B] == File(b, MODE)
      && Saved(st.records, A) == Some(Record(4096, |a|)) && Saved(st.records, B) == None
  {
    CutVisitStops(a, b, 4097, 0);
    TreeAfterCut(a, b);
    RecordsAfterCut(a, b);
  }

  lemma TreeAfterCut(a: seq<byte>, b: seq<byte>)
    requires Awkward(a, b) && Layout([], TwoTasks(a, b, 0), {A, B}, {})
    requires Calls(Goal(a, b), Start(b), CutVisit(a, b, 4097, 0))
    requires JobsOf(Start(b), CutVisit(a, b, 4097, 0)) == TwoTasks(a, b, 0)
    requires StopIn(Start(b), CutVisit(a, b, 4097, 0)) == Some(Stop(0, 4097))
    requires LengthIn(Goal(a, b), Start(b), CutVisit(a, b, 4097, 0), 0) == Some(4097)
    ensures
      var t := Visiting(Start(b), CutVisit(a, b, 4097, 0), []).state.tree;
      && TreeFits(t, {A, B}, {})
      && A in t && t[A].File? && t[A].data == a[..4097]
      && B in t && t[B] == File(b, MODE)
  {
    var g, st, v := Goal(a, b), Start(b), CutVisit(a, b, 4097, 0);
    VisitLeaves(g, st, v, 0);
    assert TreeFits(Visiting(st, v, []).state.tree, {A, B}, {}) by {
      VisitOutcome(g, st, v);
    }
    FirstTaskLeft(st.tree, Visiting(st, v, []).state.tree, TwoTasks(a, b, 0));
  }

  lemma FirstTaskLeft(t: Tree, t': Tree, js: seq<Job>)
    requires |js| > 0 && !js[0].meta.isDir && js[0].meta.dest == A && ValidJob(js[0])
    requires LeftAt(t, t', [], js, 0, Some(4097), {}) && PrefixAt(t, [], js[0])
    ensures A in t' && t'[A].File? && |t'[A].data| == 4097 && t'[A].data <= js[0].content
    ensures B in t ==> B in t' && t'[B] == t[B]
  {
    assert [] + A == A && js[..0] == [];
    assert TouchedByAll([], js[..0]) + Touched([], js[0]) == {A};
    assert PrefixAt(t', [], js[0]);
  }

  lemma RecordsAfterCut(a: seq<byte>, b: seq<byte>)
    requires Awkward(a, b) && Layout([], TwoTasks(a, b, 0), {A, B}, {})
    requires Calls(Goal(a, b), Start(b), CutVisit(a, b, 4097, 0))
    requires StopIn(Start(b), CutVisit(a, b, 4097, 0)) == Some(Stop(0, 4097))
    ensures
      var records := Visiting(Start(b), CutVisit(a, b, 4097, 0), []).state.records;
      Saved(records, A) == Some(Record(4096, |a|)) && Saved(records, B) == None
  {
    var g, st, v, stop := Goal(a, b), Start(b), CutVisit(a, b, 4097, 0), Stop(0, 4097);
    StopRecord(g, st, v, stop);
    assert CutRecord(st.records, v.sources[0], true, 4097) == Record(4096, |a|);
    OtherRecord(g, st, v, stop, 1);
  }

  /** A cut on a block boundary does not help when a byte that the network took is lost: the next session
      meets a mismatch. */
  lemma LostByteMismatches(a: seq<byte>, b: seq<byte>)
    requires Awkward(a, b)
    ensures Layout([], TwoTasks(a, b, 0), {A, B}, {}) && Proper(CutVisit(a, b, 4096, 1))
    ensures
      var st := Visiting(Start(b), CutVisit(a, b, 4096, 1), []).state;
      Mismatch(st.tree, [], JobOf(st.records, Sources(a, b)[0], true))
  {
    CutVisitStops(a, b, 4096, 1);
    var g, st, v, stop := Goal(a, b), Start(b), CutVisit(a, b, 4096, 1), Stop(0, 4096);
    NextOffsetMatchesIff(g, st, v, stop);
    OneByteShort(g, st, v, stop, LengthIn(g, st, v, 0));
  }

  lemma OneByteShort(g: Target, st: State, v: Visit, stop: Stop, length: Option<nat>)
    requires (forall j :: j in JobsOf(st, v) ==> ValidJob(j)) && 0 < |JobsOf(st, v)| < 0x8000_0000
    requires JobsOf(st, v)[0] in JobsOf(st, v) && stop == Stop(0, 4096)
    requires length == LengthIn(g, st, v, 0) && length == Some(4095)
    requires v.sources[0].meta.dest == A && ResumeOffset(st.records, v.sources[0], v.resume) == 0
    ensures StopMismatches(g, st, v, stop)
  {
    assert SpaceFree(A);
    WholeBlocksIs(4096);
  }

  // ---------- the second visit ----------

  lemma SecondTasks(a: seq<byte>, b: seq<byte>, st: State)
    requires Awkward(a, b)
    requires Saved(st.records, A) == Some(Record(4096, |a|)) && Saved(st.records, B) == None
    ensures Jobs(st.records, Sources(a, b), true) == TwoTasks(a, b, 4096)
  {
    LoadProgressIs(A, Saved(st.records, A));
    LoadProgressIs(B, Saved(st.records, B));
    assert SpaceFree(A);
  }

  lemma LastEight(a: seq<byte>, b: seq<byte>)
    requires Awkward(a, b)
    ensures Layout([], TwoTasks(a, b, 4096), {A, B}, {})
    ensures
      var js := TwoTasks(a, b, 4096);
      && |OnWire(js, 0)| == |a| + 8 && OnWire(js, 0)[|a|..] == EncodeSigned(4096, 8)
      && !(a <= OnWire(js, 0)) && Payloads(js) == Payload(js[0]) + Payloads(js[1..])
  {
    TasksFit(a, b, 4096);
    var js := TwoTasks(a, b, 4096);
    assert js[1..] == [js[1]] && [js[1]][1..] == [];
    var pb := EncodeSigned(0, 8) + b[0..];
    assert Payload(js[1]) == pb && Payloads(js[1..]) == pb + [] == pb;
    var got := a[4096..] + pb;
    assert got[0] == a[4096];
    assert |got| == |a| + 8;
    DropInto(a[4096..], pb, 4096);
    DropInto(EncodeSigned(0, 8), b[0..], 4088);
    assert b[0..] == b;
  }

  lemma DropInto(x: seq<byte>, y: seq<byte>, n: nat)
    requires n <= |y|
    ensures (x + y)[|x| + n..] == y[n..]
  {
  }

  /** Task b: its own last bytes are read as the offset, which happens to match, and nothing more is read. */
  lemma OffsetMatches(w: World, b: seq<byte>)
    requires |b| == 4096 && Fits(4096, 8) && w.bytes == EncodeSigned(4096, 8)
    requires TreeFits(w.tree, {A, B}, {}) && B in w.tree && w.tree[B] == File(b, MODE)
    ensures ReceiveTask(w, [], TaskMeta(false, B, B, MODE, |b|)).ok
  {
    SignedRoundTrip(4096, 8);
    assert w.bytes[..8] == w.bytes && w.bytes[8..] == [];
    assert [] + B == B;
    NothingToReceive(w.(bytes := []), b);
  }

  lemma NothingToReceive(w: World, b: seq<byte>)
    requires |b| == 4096 && TreeFits(w.tree, {A, B}, {}) && B in w.tree && w.tree[B] == File(b, MODE)
    ensures ReceiveFile(w, B, TaskMeta(false, B, B, MODE, |b|), 4096) == Received(true, w)
  {
    assert |B| == 1;
    assert Ancestors(B) == {};
    ParentChain(B);
    CreateDirectoryAddsMissing(w.tree, Parent(B), DEFAULT_DIR_MODE);
    assert WithDirs(w.tree, {}, DEFAULT_DIR_MODE) == w.tree;
    assert ReceiveFileData(w, B, 4096, |b|) == Received(true, w);
    assert w.tree[B := w.tree[B].(mode := MODE)] == w.tree;
  }

  /** Both tasks succeed. */
  lemma BothSucceed(w: World, a: seq<byte>, b: seq<byte>)
    requires Awkward(a, b) && TreeFits(w.tree, {A, B}, {}) && w.room >= |a|
    requires A in w.tree && w.tree[A].File? && |w.tree[A].data| == 4097
    requires B in w.tree && w.tree[B] == File(b, MODE)
    requires Layout([], TwoTasks(a, b, 4096), {A, B}, {}) && w.bytes == Payloads(TwoTasks(a, b, 4096))
    ensures Mismatch(w.tree, [], TwoTasks(a, b, 4096)[0])
    ensures ReceiveTasks(w, [], Metas(TwoTasks(a, b, 4096))).ok
  {
    var js := TwoTasks(a, b, 4096);
    LastEight(a, b);
    assert [] + A == A && [] + B == B && js[0] in js && js[1] in js;
    var after := Payloads(js[1..]);
    var k := |Payload(js[0]) + after|;
    assert w.bytes == (Payload(js[0]) + after)[..k];
    assert k == 16 + |a|;
    RestartTask(w, [], js[0], after, k, {A, B}, {});
    TaskFrame(w, [], js[0], {A, B}, {});
    var r := ReceiveTask(w, [], js[0].meta);
    assert r.world.bytes == OnWire(js, 0)[|a|..] by {
      assert OnWire(js, 0)[..k - 8] == OnWire(js, 0);
    }
    OffsetMatches(r.world, b);
    ReceiveTasksCons(w, [], js);
    ReceiveTasksCons(r.world, [], js[1..]);
    assert js[1..][0] == js[1] && js[1..][1..] == [];
  }

  function ResumedVisit(a: seq<byte>, b: seq<byte>): Visit
    requires Layout([], TwoTasks(a, b, 4096), {A, B}, {})
  {
    var k := |Stream(TwoTasks(a, b, 4096))|;
    Visit(Sources(a, b), true, k, k, Eof, |a|)
  }

  /** For all such files: the server starts out with correct files, the first visit is cut and the second is
      delivered completely; the server acknowledges, and file a differs from its source. */
  lemma AckWithoutEquality(a: seq<byte>, b: seq<byte>)
    requires Awkward(a, b)
    ensures Layout([], TwoTasks(a, b, 0), {A, B}, {}) && Layout([], TwoTasks(a, b, 4096), {A, B}, {})
    ensures Sound(Goal(a, b), Start(b).tree) && Proper(CutVisit(a, b, 4097, 0)) && Proper(ResumedVisit(a, b))
    ensures
      var st := Visiting(Start(b), CutVisit(a, b, 4097, 0), []).state;
      var r := Visiting(st, ResumedVisit(a, b), []);
      r.reply == Ack && A in r.state.tree && r.state.tree[A].File? && r.state.tree[A].data != a
  {
    CutVisitStops(a, b, 4097, 0);
    AfterCutVisit(a, b);
    TasksFit(a, b, 4096);
    LastEight(a, b);
    var st := Visiting(Start(b), CutVisit(a, b, 4097, 0), []).state;
    SecondVisit(a, b, st);
  }

  lemma SecondVisit(a: seq<byte>, b: seq<byte>, st: State)
    requires Awkward(a, b) && Layout([], TwoTasks(a, b, 4096), {A, B}, {}) && Proper(ResumedVisit(a, b))
    requires TreeFits(st.tree, {A, B}, {})
    requires A in st.tree && st.tree[A].File? && st.tree[A].data == a[..4097]
    requires B in st.tree && st.tree[B] == File(b, MODE)
    requires Saved(st.records, A) == Some(Record(4096, |a|)) && Saved(st.records, B) == None
    ensures
      var r := Visiting(st, ResumedVisit(a, b), []);
      r.reply == Ack && A in r.state.tree && r.state.tree[A].File? && r.state.tree[A].data != a
  {
    var v, js := ResumedVisit(a, b), TwoTasks(a, b, 4096);
    SecondTasks(a, b, st);
    var w := World(st.tree, Stream(js), Eof, |a|);
    assert Visiting(st, v, []).reply == HandleClient(w, []).reply
        && Visiting(st, v, []).state.tree == HandleClient(w, []).world.tree by {
      ArrivedIsPrefix(st, v);
      assert Stream(js)[..|Stream(js)|] == Stream(js);
    }
    SecondSession(w, a, b);
  }

  lemma SecondSession(w: World, a: seq<byte>, b: seq<byte>)
    requires Awkward(a, b) && TreeFits(w.tree, {A, B}, {}) && w.room >= |a|
    requires A in w.tree && w.tree[A].File? && |w.tree[A].data| == 4097
    requires B in w.tree && w.tree[B] == File(b, MODE)
    requires Layout([], TwoTasks(a, b, 4096), {A, B}, {}) && w.bytes == Stream(TwoTasks(a, b, 4096))
    ensures
      var s := HandleClient(w, []);
      s.reply == Ack && A in s.world.tree && s.world.tree[A].File? && s.world.tree[A].data != a
  {
    var js := TwoTasks(a, b, 4096);
    SessionAcks(w, a, b);
    var k := |Stream(js)|;
    assert Stream(js)[..k] == Stream(js) && js[..0] == [];
    MismatchDecidesFile(w, [], js, 0, k, {A, B}, {});
    LastEight(a, b);
    assert Full([], js[0]) == A;
  }

  lemma SessionAcks(w: World, a: seq<byte>, b: seq<byte>)
    requires Awkward(a, b) && TreeFits(w.tree, {A, B}, {}) && w.room >= |a|
    requires A in w.tree && w.tree[A].File? && |w.tree[A].data| == 4097
    requires B in w.tree && w.tree[B] == File(b, MODE)
    requires Layout([], TwoTasks(a, b, 4096), {A, B}, {}) && w.bytes == Stream(TwoTasks(a, b, 4096))
    ensures HandleClient(w, []).reply == Ack && Mismatch(w.tree, [], TwoTasks(a, b, 4096)[0])
  {
    var js := TwoTasks(a, b, 4096);
    var p := Payloads(js);
    assert p[..|p|] == p;
    BothSucceed(w.(bytes := p), a, b);
    LoopOnWhole(w, [], js);
  }

  lemma LoopOnWhole(w: World, base: Path, js: seq<Job>)
    requires (forall j :: j in js ==> ValidJob(j)) && |js| < 0x8000_0000 && w.bytes == Stream(js)
    ensures HandleClient(w, base).reply == Ack <==> ReceiveTasks(w.(bytes := Payloads(js)), base, Metas(js)).ok
  {
    var k := |Stream(js)|;
    AllOfIt(Stream(js));
    StreamReachesLoop(w, base, js, k);
    LoopOfWhole(w, base, js);
  }

  lemma LoopOfWhole(w: World, base: Path, js: seq<Job>)
    requires (forall j :: j in js ==> ValidJob(j)) && |js| < 0x8000_0000
    ensures HeaderSize(js) <= |Stream(js)|
    ensures TaskLoop(w, base, js, |Stream(js)|) == ReceiveTasks(w.(bytes := Payloads(js)), base, Metas(js))
  {
    AllOfIt(Payloads(js));
    assert |Stream(js)| - HeaderSize(js) == |Payloads(js)|;
  }

  lemma AllOfIt(s: seq<byte>)
    ensures s[..|s|] == s
  {
  }

  /** There are such files. */
  lemma AwkwardFilesExist()
    ensures
      var a: seq<byte> := [1] + Zeros(4097);
      var b := Zeros(4089) + [16] + Zeros(6);
      Awkward(a[4096 := 2], b)
  {
    Widths();
    assert LeBytes(4096, 8) == [0] + LeBytes(16, 7);
    assert LeBytes(16, 7) == [16] + LeBytes(0, 6);
    ZeroBytes(6);
    var b := Zeros(4089) + [16] + Zeros(6);
    assert b[4088..] == [0] + ([16] + Zeros(6));
  }

  lemma {:induction false} ZeroBytes(n: nat)
    ensures LeBytes(0, n) == Zeros(n)
  {
    if n > 0 {
      ZeroBytes(n - 1);
    }
  }
}
