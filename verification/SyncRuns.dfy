/** Any number of interrupted and resumed remote sessions. Each visit lets the network cut the client's
    stream anywhere, lets the server see any beginning of what was sent, and lets the disk fill up. */
module SyncRuns {
  import opened Bytes
  import opened FileTree
  import opened SyncServer
  import opened SyncSession
  import opened SyncRestart
  import opened Network
  import opened SyncClient

  /** What survives between sessions: the server's files and the client's records. */
  datatype State = State(tree: Tree, records: Records)

  datatype Visit = Visit(sources: seq<Source>, resume: bool, accept: nat, delivered: nat, ending: Ending, room: nat)

  datatype Visited = Visited(state: State, reply: Reply)

  ghost predicate Proper(v: Visit) {
    && (forall s :: s in v.sources ==> ValidSource(s))
    && DistinctDests(v.sources) && |v.sources| < 0x8000_0000
  }

  function Visiting(st: State, v: Visit, base: Path): Visited
    requires Proper(v)
  {
    var c := SyncRemote(Net([], true, v.accept), st.records, v.sources, v.resume);
    var arrived := c.net.sent[..Min(v.delivered, |c.net.sent|)];
    var s := HandleClient(World(st.tree, arrived, v.ending, v.room), base);
    Visited(State(s.world.tree, c.records), s.reply)
  }

  function JobsOf(st: State, v: Visit): seq<Job> {
    Jobs(st.records, v.sources, v.resume)
  }

  /** The destination paths and what belongs there, fixed for the whole run. */
  datatype Target = Target(base: Path, files: set<Path>, dirs: set<Path>, content: map<Path, seq<byte>>)

  /** The visit sends, to the places of the target, the unchanged sources. */
  ghost predicate Serves(g: Target, st: State, v: Visit) {
    && Proper(v)
    && g.content.Keys <= g.files
    && Layout(g.base, JobsOf(st, v), g.files, g.dirs)
    && forall j :: j in JobsOf(st, v) && !j.meta.isDir ==>
         Full(g.base, j) in g.content && g.content[Full(g.base, j)] == j.content
  }

  ghost predicate NoMismatch(g: Target, st: State, v: Visit) {
    forall j :: j in JobsOf(st, v) ==> !Mismatch(st.tree, g.base, j)
  }

  /** Every server file of the target is a beginning of its source. */
  ghost predicate Sound(g: Target, t: Tree) {
    && TreeFits(t, g.files, g.dirs)
    && forall p :: p in g.content && IsFile(t, p) ==> t[p].data <= g.content[p]
  }

  /** What reaches the server is a beginning of the session's stream. */
  lemma ArrivedIsPrefix(st: State, v: Visit)
    requires Proper(v)
    ensures forall j :: j in JobsOf(st, v) ==> ValidJob(j)
    ensures
      var stream := Stream(JobsOf(st, v));
      var sent := SyncRemote(Net([], true, v.accept), st.records, v.sources, v.resume).net.sent;
      var k := Min(v.delivered, |sent|);
      && |sent| == Min(v.accept, |stream|)
      && k <= |stream| && sent[..k] == stream[..k]
  {
    ClientSendsStream(Net([], true, v.accept), st.records, v.sources, v.resume);
    var stream := Stream(JobsOf(st, v));
    SentIsPrefix(v.accept, stream, v.delivered);
  }

  lemma SentIsPrefix(accept: nat, data: seq<byte>, delivered: nat)
    ensures
      var sent := Send(Net([], true, accept), data).sent;
      var k := Min(delivered, |sent|);
      |sent| == Min(accept, |data|) && k <= |data| && sent[..k] == data[..k]
  {
    assert [] + data == data;
  }

  lemma SoundStays(g: Target, t: Tree, t': Tree, js: seq<Job>)
    requires Layout(g.base, js, g.files, g.dirs) && g.content.Keys <= g.files && Sound(g, t)
    requires forall j :: j in js && !j.meta.isDir ==>
      Full(g.base, j) in g.content && g.content[Full(g.base, j)] == j.content
    requires TreeFits(t', g.files, g.dirs) && Grown(t, t', TouchedByAll(g.base, js), g.dirs)
    requires AllPrefixes(t', g.base, js)
    ensures Sound(g, t')
  {
    TouchedIsFiles(g.base, js, g.files, g.dirs);
    forall p | p in g.content && IsFile(t', p)
      ensures t'[p].data <= g.content[p]
    {
      if p in TouchedByAll(g.base, js) {
        var j :| j in js && !j.meta.isDir && p == Full(g.base, j);
        assert PrefixAt(t', g.base, j);
      }
    }
  }

  lemma VisitAligned(g: Target, st: State, v: Visit)
    requires Serves(g, st, v) && Sound(g, st.tree) && NoMismatch(g, st, v)
    ensures AllAligned(st.tree, g.base, JobsOf(st, v)) && AllPrefixes(st.tree, g.base, JobsOf(st, v))
  {
    forall j | j in JobsOf(st, v)
      ensures PrefixAt(st.tree, g.base, j) && Aligned(st.tree, g.base, j)
    {
      AlignedUnlessMismatch(st.tree, g.base, j);
    }
  }

  /** One visit without mismatch keeps every file a beginning of its source; it is acknowledged exactly
      when all bytes were accepted, delivered and written, and then every file of the visit equals its
      source. */
  lemma VisitOutcome(g: Target, st: State, v: Visit)
    requires Serves(g, st, v) && Sound(g, st.tree) && NoMismatch(g, st, v)
    ensures forall j :: j in JobsOf(st, v) ==> ValidJob(j)
    ensures
      var r := Visiting(st, v, g.base);
      var js := JobsOf(st, v);
      && Sound(g, r.state.tree)
      && (r.reply == Ack <==>
            v.accept >= |Stream(js)| && v.delivered >= |Stream(js)| && v.room >= RoomForAll(js))
      && (r.reply == Ack ==> AllDone(r.state.tree, g.base, js))
  {
    ArrivedIsPrefix(st, v);
    var js := JobsOf(st, v);
    var sent := SyncRemote(Net([], true, v.accept), st.records, v.sources, v.resume).net.sent;
    var k := Min(v.delivered, |sent|);
    VisitAligned(g, st, v);
    var w := World(st.tree, sent[..k], v.ending, v.room);
    SessionOutcome(w, g.base, js, k, g.files, g.dirs);
    SoundStays(g, st.tree, HandleClient(w, g.base).world.tree, js);
  }

  function Run(st: State, vs: seq<Visit>, base: Path): State
    requires forall v :: v in vs ==> Proper(v)
    decreases |vs|
  {
    if vs == [] then st else Run(Visiting(st, vs[0], base).state, vs[1..], base)
  }

  /** Every visit of the run serves the target and meets no offset mismatch. */
  ghost predicate CleanRun(g: Target, st: State, vs: seq<Visit>)
    decreases |vs|
  {
    vs == [] ||
    (Serves(g, st, vs[0]) && NoMismatch(g, st, vs[0]) && CleanRun(g, Visiting(st, vs[0], g.base).state, vs[1..]))
  }

  /** Every acknowledged visit of the run left all its files equal to their sources. */
  ghost predicate AcksHonest(g: Target, st: State, vs: seq<Visit>)
    decreases |vs|
  {
    vs == [] ||
    (Proper(vs[0]) &&
     var r := Visiting(st, vs[0], g.base);
     && (r.reply == Ack ==> AllDone(r.state.tree, g.base, JobsOf(st, vs[0])))
     && AcksHonest(g, r.state, vs[1..]))
  }

  lemma {:induction false} CleanRunIsProper(g: Target, st: State, vs: seq<Visit>)
    requires CleanRun(g, st, vs)
    ensures forall v :: v in vs ==> Proper(v)
    decreases |vs|
  {
    if vs != [] {
      var tail := vs[1..];
      CleanRunIsProper(g, Visiting(st, vs[0], g.base).state, tail);
      forall v | v in vs
        ensures Proper(v)
      {
        if v != vs[0] {
          assert v in tail;
        }
      }
    }
  }

  /** Across any number of sessions, cut anywhere, with unchanged sources and no offset mismatch: every
      server file is a beginning of its source at the end (and so after every visit, since every
      beginning of a run is a run), and every acknowledgement told the truth. */
  lemma {:induction false} RunsStaySound(g: Target, st: State, vs: seq<Visit>)
    requires Sound(g, st.tree) && CleanRun(g, st, vs)
    ensures forall v :: v in vs ==> Proper(v)
    ensures Sound(g, Run(st, vs, g.base).tree)
    ensures AcksHonest(g, st, vs)
    decreases |vs|
  {
    CleanRunIsProper(g, st, vs);
    if vs != [] {
      VisitOutcome(g, st, vs[0]);
      RunsStaySound(g, Visiting(st, vs[0], g.base).state, vs[1..]);
    }
  }
}
