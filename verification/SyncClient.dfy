/** The client's side of a session: what it sends and the progress records that it keeps. */
module SyncClient {
  import opened Bytes
  import opened Results
  import opened Network
  import opened SyncWire
  import opened SyncSession
  import opened ProgressRecord

  /** What was last saved in the progress files, by destination path. */
  type Records = map<Path, Record>

  /** One task and the bytes of its source. */
  datatype Source = Source(meta: TaskMeta, content: seq<byte>)

  datatype Sending = Sending(ok: bool, net: Net, records: Records)

  const BLOCK_SIZE: nat := 4096

  function SendMany(n: Net, parts: seq<seq<byte>>): Net
    decreases |parts|
  {
    if parts == [] then n else SendMany(Send(n, parts[0]), parts[1..])
  }

  /** The loop of sendFileSync, with the record it keeps up to date. */
  function SendFrom(n: Net, records: Records, dest: Path, content: seq<byte>, transferred: nat): Sending
    decreases |content| - transferred
  {
    if transferred >= |content| then Sending(true, n, records - {dest})
    else
      var next := transferred + Min(BLOCK_SIZE, |content| - transferred);
      var n' := Send(n, content[transferred..next]);
      if n'.connected then SendFrom(n', records[dest := Record(next, |content|)], dest, content, next)
      else Sending(false, n', records[dest := Record(transferred, |content|)])
  }

  function Saved(records: Records, dest: Path): Option<Record> {
    if dest in records then Some(records[dest]) else None
  }

  /** What loadProgress returns is used only when it is positive and short of the source's length. */
  function ResumeOffset(records: Records, s: Source, resume: bool): (r: nat)
    ensures r > 0 ==> r < |s.content|
  {
    if !resume || s.meta.isDir then 0
    else
      var progress := LoadProgress(s.meta.dest, Saved(records, s.meta.dest));
      if HasProgress(progress) && progress.offset < |s.content| then progress.offset else 0
  }

  function JobOf(records: Records, s: Source, resume: bool): Job {
    Job(s.meta, s.content, ResumeOffset(records, s, resume))
  }

  function Jobs(records: Records, sources: seq<Source>, resume: bool): (js: seq<Job>)
    ensures |js| == |sources|
    ensures forall i :: 0 <= i < |js| ==> js[i] == JobOf(records, sources[i], resume)
  {
    seq(|sources|, i requires 0 <= i < |sources| => JobOf(records, sources[i], resume))
  }

  /** A task list whose stat calls succeed: sizes are the sources' lengths. */
  ghost predicate ValidSource(s: Source) {
    && Sendable(s.meta) && NulFree(s.meta) && Fits(|s.content|, 8)
    && if s.meta.isDir then s.content == [] else s.meta.size == |s.content|
  }

  lemma JobsValid(records: Records, sources: seq<Source>, resume: bool)
    requires forall s :: s in sources ==> ValidSource(s)
    ensures forall j :: j in Jobs(records, sources, resume) ==> ValidJob(j)
  {
    var js := Jobs(records, sources, resume);
    forall j | j in js
      ensures ValidJob(j)
    {
      var i :| 0 <= i < |js| && js[i] == j;
      assert sources[i] in sources;
    }
  }

  function SendTask(n: Net, records: Records, s: Source, resume: bool): Sending
    requires ValidSource(s)
  {
    var offset := ResumeOffset(records, s, resume);
    var n' := Send(n, EncodeSigned(offset, 8));
    if s.meta.isDir then Sending(true, n', records)
    else SendFrom(n', records, s.meta.dest, s.content, offset)
  }

  function SendTasks(n: Net, records: Records, sources: seq<Source>, resume: bool): Sending
    requires forall s :: s in sources ==> ValidSource(s)
    decreases |sources|
  {
    if sources == [] then Sending(true, n, records)
    else
      var r := SendTask(n, records, sources[0], resume);
      if r.ok then SendTasks(r.net, r.records, sources[1..], resume) else r
  }

  function HeaderSends(sources: seq<Source>): seq<seq<byte>>
    requires forall s :: s in sources ==> ValidSource(s)
  {
    if sources == [] then []
    else
      assert sources[0] in sources && ValidSource(sources[0]) && Sendable(sources[0].meta);
      TaskSends(sources[0].meta) + HeaderSends(sources[1..])
  }

  /** syncRemote up to the point where it waits for the acknowledgement. */
  function SyncRemote(n: Net, records: Records, sources: seq<Source>, resume: bool): Sending
    requires forall s :: s in sources ==> ValidSource(s)
  {
    Widths();
    var n1 := Send(Send(n, [0]), EncodeSigned(WrapInt32(|sources|), 4));
    SendTasks(SendMany(n1, HeaderSends(sources)), records, sources, resume)
  }

  // ---------- sending is an action of the byte stream ----------

  lemma {:induction false} SendManyIsConcat(n: Net, parts: seq<seq<byte>>)
    ensures SendMany(n, parts) == Send(n, Concat(parts))
    decreases |parts|
  {
    if parts == [] {
      SendNothing(n);
    } else {
      SendManyIsConcat(Send(n, parts[0]), parts[1..]);
      SendTwice(n, parts[0], Concat(parts[1..]));
    }
  }

  lemma {:induction false} ConcatAppend(a: seq<seq<byte>>, b: seq<seq<byte>>)
    ensures Concat(a + b) == Concat(a) + Concat(b)
  {
    if a == [] {
      assert a + b == b;
    } else {
      assert (a + b)[1..] == a[1..] + b;
      ConcatAppend(a[1..], b);
    }
  }

  lemma {:induction false} HeaderIsEncoding(records: Records, sources: seq<Source>, resume: bool)
    requires forall s :: s in sources ==> ValidSource(s)
    ensures forall t :: t in Metas(Jobs(records, sources, resume)) ==> Sendable(t)
    ensures Concat(HeaderSends(sources)) == EncodeTasks(Metas(Jobs(records, sources, resume)))
    decreases |sources|
  {
    var ts := Metas(Jobs(records, sources, resume));
    JobsValid(records, sources, resume);
    MetasSendable(Jobs(records, sources, resume));
    if sources != [] {
      assert ts[1..] == Metas(Jobs(records, sources[1..], resume));
      HeaderIsEncoding(records, sources[1..], resume);
      ConcatAppend(TaskSends(sources[0].meta), HeaderSends(sources[1..]));
    }
  }

  /** Failing or not, sendFileSync has sent what the network took of the rest of the file. */
  lemma {:induction false} SendFromNet(n: Net, records: Records, dest: Path, content: seq<byte>, transferred: nat)
    requires transferred <= |content|
    ensures
      var r := SendFrom(n, records, dest, content, transferred);
      && r.net == Send(n, content[transferred..])
      && (!r.ok ==> !r.net.connected)
      && (forall d :: d != dest ==> Saved(r.records, d) == Saved(records, d))
    decreases |content| - transferred
  {
    if transferred == |content| {
      assert content[transferred..] == [];
      SendNothing(n);
    } else {
      var next := transferred + Min(BLOCK_SIZE, |content| - transferred);
      var n' := Send(n, content[transferred..next]);
      assert content[transferred..] == content[transferred..next] + content[next..];
      SendTwice(n, content[transferred..next], content[next..]);
      if n'.connected {
        SendFromNet(n', records[dest := Record(next, |content|)], dest, content, next);
      }
    }
  }

  lemma SendTaskNet(n: Net, records: Records, s: Source, resume: bool)
    requires ValidSource(s)
    ensures
      var r := SendTask(n, records, s, resume);
      && ValidJob(JobOf(records, s, resume))
      && r.net == Send(n, Payload(JobOf(records, s, resume)))
      && (!r.ok ==> !r.net.connected)
      && (forall d :: s.meta.isDir || d != s.meta.dest ==> Saved(r.records, d) == Saved(records, d))
  {
    var offset := ResumeOffset(records, s, resume);
    var body := s.content[offset..];
    SendTwice(n, EncodeSigned(offset, 8), body);
    if s.meta.isDir {
      SendNothing(Send(n, EncodeSigned(offset, 8)));
    } else {
      SendFromNet(Send(n, EncodeSigned(offset, 8)), records, s.meta.dest, s.content, offset);
    }
  }

  ghost predicate DistinctDests(sources: seq<Source>) {
    forall a, b :: 0 <= a < b < |sources| && !sources[a].meta.isDir && !sources[b].meta.isDir ==>
      sources[a].meta.dest != sources[b].meta.dest
  }

  /** The records that the sources will load are the same. */
  ghost predicate SameSaved(now: Records, records: Records, sources: seq<Source>) {
    forall s :: s in sources && !s.meta.isDir ==> Saved(now, s.meta.dest) == Saved(records, s.meta.dest)
  }

  /** Sending one source leaves the records of the later ones. */
  lemma LaterSaved(n: Net, records: Records, now: Records, sources: seq<Source>, resume: bool)
    requires sources != [] && (forall s :: s in sources ==> ValidSource(s))
    requires DistinctDests(sources) && SameSaved(now, records, sources)
    ensures DistinctDests(sources[1..]) &&
            SameSaved(SendTask(n, now, sources[0], resume).records, records, sources[1..])
  {
    SendTaskNet(n, now, sources[0], resume);
    forall x | x in sources[1..] && !x.meta.isDir
      ensures Saved(SendTask(n, now, sources[0], resume).records, x.meta.dest) == Saved(records, x.meta.dest)
    {
      var i :| 0 <= i < |sources[1..]| && sources[1..][i] == x;
      assert sources[i + 1] == x && x in sources;
    }
  }

  lemma SameJob(now: Records, records: Records, sources: seq<Source>, s: Source, resume: bool)
    requires SameSaved(now, records, sources) && s in sources
    ensures JobOf(now, s, resume) == JobOf(records, s, resume)
  {
  }

  lemma {:induction false} SendTasksNet(n: Net, records: Records, now: Records, sources: seq<Source>, resume: bool)
    requires forall s :: s in sources ==> ValidSource(s)
    requires DistinctDests(sources) && SameSaved(now, records, sources)
    ensures forall j :: j in Jobs(records, sources, resume) ==> ValidJob(j)
    ensures SendTasks(n, now, sources, resume).net == Send(n, Payloads(Jobs(records, sources, resume)))
    decreases |sources|
  {
    JobsValid(records, sources, resume);
    if sources == [] {
      SendNothing(n);
    } else {
      var s, tail := sources[0], Jobs(records, sources[1..], resume);
      assert s in sources;
      SameJob(now, records, sources, s, resume);
      SendTaskNet(n, now, s, resume);
      JobsTail(records, sources, resume);
      SendTwice(n, Payload(JobOf(records, s, resume)), Payloads(tail));
      var r := SendTask(n, now, s, resume);
      if r.ok {
        LaterSaved(n, records, now, sources, resume);
        SendTasksNet(r.net, records, r.records, sources[1..], resume);
      }
    }
  }

  lemma JobsTail(records: Records, sources: seq<Source>, resume: bool)
    requires sources != [] && forall s :: s in sources ==> ValidSource(s)
    ensures forall j :: j in Jobs(records, sources, resume) ==> ValidJob(j)
    ensures forall j :: j in Jobs(records, sources[1..], resume) ==> ValidJob(j)
    ensures Payloads(Jobs(records, sources, resume)) ==
            Payload(JobOf(records, sources[0], resume)) + Payloads(Jobs(records, sources[1..], resume))
  {
    JobsValid(records, sources, resume);
    JobsValid(records, sources[1..], resume);
    assert Jobs(records, sources, resume)[1..] == Jobs(records, sources[1..], resume);
  }

  /** Whatever fails on the way, the bytes on the wire are the beginning of the session's stream that
      the network accepted. */
  lemma ClientSendsStream(n: Net, records: Records, sources: seq<Source>, resume: bool)
    requires forall s :: s in sources ==> ValidSource(s)
    requires DistinctDests(sources) && |sources| < 0x8000_0000
    ensures forall j :: j in Jobs(records, sources, resume) ==> ValidJob(j)
    ensures SyncRemote(n, records, sources, resume).net == Send(n, Stream(Jobs(records, sources, resume)))
  {
    Widths();
    JobsValid(records, sources, resume);
    var js := Jobs(records, sources, resume);
    var count := EncodeSigned(|sources|, 4);
    var n1 := Send(Send(n, [0]), count);
    HeaderIsEncoding(records, sources, resume);
    SendManyIsConcat(n1, HeaderSends(sources));
    SendTasksNet(SendMany(n1, HeaderSends(sources)), records, records, sources, resume);
    SendFour(n, [0], count, EncodeTasks(Metas(js)), Payloads(js));
  }

  // ---------- what the resume argument decides ----------

  /** The offsets and the bytes of a session in which every file is sent from the beginning. */
  function WholePayloads(sources: seq<Source>): seq<byte> {
    if sources == [] then [] else Zeros(8) + sources[0].content + WholePayloads(sources[1..])
  }

  lemma WholePayload(s: Source)
    requires ValidSource(s)
    ensures Fits(0, 8) && EncodeSigned(0, 8) == Zeros(8)
    ensures EncodeSigned(0, 8) + s.content[0..] == Zeros(8) + s.content
  {
    Widths();
  }

  lemma {:induction false} SendTasksWhole(n: Net, records: Records, sources: seq<Source>)
    requires forall s :: s in sources ==> ValidSource(s)
    ensures SendTasks(n, records, sources, false).net == Send(n, WholePayloads(sources))
    decreases |sources|
  {
    if sources == [] {
      SendNothing(n);
    } else {
      var s := sources[0];
      assert s in sources;
      SendTaskNet(n, records, s, false);
      WholePayload(s);
      SendTwice(n, Zeros(8) + s.content, WholePayloads(sources[1..]));
      var r := SendTask(n, records, s, false);
      if r.ok {
        SendTasksWhole(r.net, r.records, sources[1..]);
      }
    }
  }

  function MetasOf(sources: seq<Source>): (ts: seq<TaskMeta>)
    ensures |ts| == |sources| && forall i :: 0 <= i < |ts| ==> ts[i] == sources[i].meta
  {
    seq(|sources|, i requires 0 <= i < |sources| => sources[i].meta)
  }

  /** Without resume the bytes on the wire do not depend on the records: offset 0 and all the bytes of every
      file, as far as the network takes them. */
  lemma WithoutResumeAllIsSent(n: Net, records: Records, sources: seq<Source>)
    requires forall s :: s in sources ==> ValidSource(s)
    ensures forall t :: t in MetasOf(sources) ==> Sendable(t)
    ensures Fits(WrapInt32(|sources|), 4)
    ensures
      SyncRemote(n, records, sources, false).net ==
      Send(n, [0] + (EncodeSigned(WrapInt32(|sources|), 4) + (EncodeTasks(MetasOf(sources)) + WholePayloads(sources))))
  {
    Widths();
    var count := EncodeSigned(WrapInt32(|sources|), 4);
    var n1 := Send(Send(n, [0]), count);
    assert MetasOf(sources) == Metas(Jobs(records, sources, false));
    HeaderIsEncoding(records, sources, false);
    SendManyIsConcat(n1, HeaderSends(sources));
    SendTasksWhole(SendMany(n1, HeaderSends(sources)), records, sources);
    SendFour(n, [0], count, EncodeTasks(MetasOf(sources)), WholePayloads(sources));
  }

  /** With resume a file is sent from the recorded offset exactly when its record can be loaded, both numbers
      in it are positive, and the offset is short of the source; otherwise, and without resume, from 0. */
  lemma OffsetIff(records: Records, s: Source, resume: bool)
    ensures
      var d := s.meta.dest;
      ResumeOffset(records, s, resume) ==
      if && resume && !s.meta.isDir && Loadable(d) && d in records
         && records[d].offset > 0 && records[d].total > 0 && records[d].offset < |s.content|
      then records[d].offset else 0
  {
    LoadProgressIs(s.meta.dest, Saved(records, s.meta.dest));
  }

  // ---------- the record after an interruption ----------

  /** The part of m that consists of whole blocks. */
  function WholeBlocks(m: nat): (r: nat)
    ensures r <= m
  {
    if m < BLOCK_SIZE then 0 else BLOCK_SIZE + WholeBlocks(m - BLOCK_SIZE)
  }

  lemma {:induction false} WholeBlocksIs(m: nat)
    ensures WholeBlocks(m) == m - m % 4096
  {
    if m >= BLOCK_SIZE {
      WholeBlocksIs(m - BLOCK_SIZE);
      assert m % BLOCK_SIZE == (m - BLOCK_SIZE) % BLOCK_SIZE;
    }
  }

  /** If the network takes m of the remaining bytes, the record is rounded down to whole blocks; if it
      takes all of them the record is removed. */
  lemma {:induction false} RecordAfterCut(n: Net, records: Records, dest: Path, content: seq<byte>, transferred: nat)
    requires n.connected && transferred <= |content|
    ensures
      var left := |content| - transferred;
      var r := SendFrom(n, records, dest, content, transferred);
      && (r.ok <==> n.accept >= left)
      && (r.ok ==> dest !in r.records)
      && (!r.ok ==> dest in r.records
                    && r.records[dest] == Record(transferred + WholeBlocks(n.accept), |content|))
    decreases |content| - transferred
  {
    var left := |content| - transferred;
    if left > 0 {
      var size := Min(BLOCK_SIZE, left);
      var n' := Send(n, content[transferred..transferred + size]);
      if n'.connected {
        RecordAfterCut(n', records[dest := Record(transferred + size, |content|)], dest, content, transferred + size);
        if n.accept < left {
          assert size == BLOCK_SIZE;
        }
      }
    }
  }

  // ---------- where a session stops ----------

  /** The bytes that a network still takes. */
  function Budget(n: Net): nat {
    if n.connected then n.accept else 0
  }

  /** The task in which sendFileSync fails, and how many bytes of its data the network takes. */
  datatype Stop = Stop(index: nat, taken: nat)

  predicate StopsFirst(j: Job, room: nat)
    requires ValidJob(j)
  {
    RoomFor(j) > 0 && room < |Payload(j)|
  }

  /** A task without data never fails, even when its offset is lost: the error of that send is not looked
      at. So the first task with data that does not fit stops the session. */
  function StopOf(js: seq<Job>, room: nat): Option<Stop>
    requires forall j :: j in js ==> ValidJob(j)
  {
    if js == [] then None
    else if StopsFirst(js[0], room) then Some(Stop(0, if room >= 8 then room - 8 else 0))
    else Next(StopOf(js[1..], Minus(room, |Payload(js[0])|)))
  }

  /** The same stop, seen from one task earlier. */
  function Next(stop: Option<Stop>): Option<Stop> {
    match stop
    case None => None
    case Some(s) => Some(Stop(s.index + 1, s.taken))
  }

  function Minus(a: nat, b: nat): nat {
    if a >= b then a - b else 0
  }

  /** The same from the start of the session: s is where a network that takes room bytes stops. */
  ghost predicate StopFits(js: seq<Job>, room: nat, s: Stop)
    requires forall j :: j in js ==> ValidJob(j)
  {
    && s.index < |js| && js[s.index] in js && !js[s.index].meta.isDir
    && s.taken == Minus(room, |Payloads(js[..s.index])| + 8) < RoomFor(js[s.index])
    && room < |Payloads(js[..s.index])| + 8 + RoomFor(js[s.index])
  }

  lemma {:induction false} StopOfIs(js: seq<Job>, room: nat)
    requires forall j :: j in js ==> ValidJob(j)
    ensures StopOf(js, room).Some? ==> StopFits(js, room, StopOf(js, room).value)
    decreases |js|
  {
    if js != [] && StopOf(js, room).Some? {
      assert js[0] in js;
      if StopsFirst(js[0], room) {
        StopFitsFirst(js, room);
      } else {
        var left := Minus(room, |Payload(js[0])|);
        StopOfIs(js[1..], left);
        StopFitsLater(js, room, StopOf(js[1..], left).value);
      }
    }
  }

  lemma StopFitsFirst(js: seq<Job>, room: nat)
    requires js != [] && (forall j :: j in js ==> ValidJob(j)) && js[0] in js && StopsFirst(js[0], room)
    ensures StopFits(js, room, Stop(0, Minus(room, 8)))
  {
    assert js[..0] == [] && |Payload(js[0])| == 8 + RoomFor(js[0]);
  }

  lemma StopFitsLater(js: seq<Job>, room: nat, s: Stop)
    requires js != [] && (forall j :: j in js ==> ValidJob(j)) && js[0] in js && !StopsFirst(js[0], room)
    requires StopFits(js[1..], Minus(room, |Payload(js[0])|), s)
    ensures StopFits(js, room, Stop(s.index + 1, s.taken))
  {
    assert |Payload(js[0])| == 8 + RoomFor(js[0]);
    FrontPayloads(js, s.index + 1);
    assert js[1..][s.index] == js[s.index + 1];
  }

  lemma FrontPayloads(js: seq<Job>, i: nat)
    requires 0 < i <= |js| && forall j :: j in js ==> ValidJob(j)
    ensures |Payloads(js[..i])| == |Payload(js[0])| + |Payloads(js[1..][..i - 1])|
  {
    assert js[..i][0] == js[0] && js[..i][1..] == js[1..][..i - 1];
  }

  // ---------- the records after a session ----------

  /** One task in which the network does not stop: a file's record is gone. */
  lemma RecordsAfterTask(n: Net, records: Records, s: Source, resume: bool)
    requires ValidSource(s) && ValidJob(JobOf(records, s, resume)) && !StopsFirst(JobOf(records, s, resume), Budget(n))
    ensures
      var r := SendTask(n, records, s, resume);
      && r.ok && Budget(r.net) == Minus(Budget(n), |Payload(JobOf(records, s, resume))|)
      && (!s.meta.isDir ==> Saved(r.records, s.meta.dest) == None)
      && (forall d :: s.meta.isDir || d != s.meta.dest ==> Saved(r.records, d) == Saved(records, d))
  {
    SendTaskNet(n, records, s, resume);
    var offset := ResumeOffset(records, s, resume);
    var n' := Send(n, EncodeSigned(offset, 8));
    assert |Payload(JobOf(records, s, resume))| == 8 + (|s.content| - offset);
    if !s.meta.isDir && offset < |s.content| {
      assert n'.connected && n'.accept == n.accept - 8;
      RecordAfterCut(n', records, s.meta.dest, s.content, offset);
    }
  }

  /** The record of s when the network takes m bytes of its data: whole blocks count. */
  function CutRecord(records: Records, s: Source, resume: bool, m: nat): Record {
    Record(ResumeOffset(records, s, resume) + WholeBlocks(m), |s.content|)
  }

  /** One task in which the network stops. */
  lemma RecordsAfterStop(n: Net, records: Records, s: Source, resume: bool)
    requires ValidSource(s) && ValidJob(JobOf(records, s, resume)) && StopsFirst(JobOf(records, s, resume), Budget(n))
    ensures
      var r := SendTask(n, records, s, resume);
      && !r.ok && !s.meta.isDir
      && Saved(r.records, s.meta.dest) == Some(CutRecord(records, s, resume, Minus(Budget(n), 8)))
      && (forall d :: d != s.meta.dest ==> Saved(r.records, d) == Saved(records, d))
  {
    var offset := ResumeOffset(records, s, resume);
    var n' := Send(n, EncodeSigned(offset, 8));
    assert |Payload(JobOf(records, s, resume))| == 8 + (|s.content| - offset);
    assert SendTask(n, records, s, resume) == SendFrom(n', records, s.meta.dest, s.content, offset);
    OffsetTaken(n, EncodeSigned(offset, 8));
    RecordAfterStop(n', records, s.meta.dest, s.content, offset);
  }

  lemma OffsetTaken(n: Net, data: seq<byte>)
    ensures Budget(Send(n, data)) == Minus(Budget(n), |data|)
  {
  }

  lemma RecordAfterStop(n: Net, records: Records, dest: Path, content: seq<byte>, offset: nat)
    requires offset < |content| && Budget(n) < |content| - offset
    ensures
      var r := SendFrom(n, records, dest, content, offset);
      && !r.ok && Saved(r.records, dest) == Some(Record(offset + WholeBlocks(Budget(n)), |content|))
      && (forall d :: d != dest ==> Saved(r.records, d) == Saved(records, d))
  {
    SendFromNet(n, records, dest, content, offset);
    if n.connected {
      RecordAfterCut(n, records, dest, content, offset);
    }
  }

  /** The records of a session stopped in its i-th source: those of the earlier files are gone, this one's is
      the given one, and the others are as they were. */
  ghost predicate CutRecords(sources: seq<Source>, i: nat, record: Record, before: Records, after: Records)
    requires i < |sources|
  {
    && AllGone(sources[..i], after)
    && Saved(after, sources[i].meta.dest) == Some(record)
    && (forall d :: !Sends(sources[..i + 1], d) ==> Saved(after, d) == Saved(before, d))
  }

  ghost predicate AllGone(sources: seq<Source>, after: Records) {
    forall s :: s in sources && !s.meta.isDir ==> Saved(after, s.meta.dest) == None
  }

  /** Some file among the sources has the destination d. */
  ghost predicate Sends(sources: seq<Source>, d: Path) {
    exists s :: s in sources && !s.meta.isDir && s.meta.dest == d
  }

  /** The first source is a file of its own: no later one has its destination. */
  lemma FirstApart(sources: seq<Source>)
    requires DistinctDests(sources) && sources != [] && !sources[0].meta.isDir
    ensures !Sends(sources[1..], sources[0].meta.dest)
  {
    forall s | s in sources[1..] && !s.meta.isDir
      ensures s.meta.dest != sources[0].meta.dest
    {
      var a :| 0 <= a < |sources[1..]| && sources[1..][a] == s;
      assert sources[a + 1] == s;
    }
  }

  lemma CutRecordsLater(sources: seq<Source>, i: nat, record: Record, before: Records, mid: Records, after: Records)
    requires DistinctDests(sources) && 0 < i < |sources|
    requires !sources[0].meta.isDir ==> Saved(mid, sources[0].meta.dest) == None
    requires forall d :: sources[0].meta.isDir || d != sources[0].meta.dest ==> Saved(mid, d) == Saved(before, d)
    requires CutRecords(sources[1..], i - 1, record, mid, after)
    ensures CutRecords(sources, i, record, before, after)
  {
    var tail := sources[1..];
    assert sources[..i] == [sources[0]] + tail[..i - 1];
    assert sources[..i + 1] == [sources[0]] + tail[..i];
    if !sources[0].meta.isDir {
      FirstApart(sources);
      assert !Sends(tail[..i], sources[0].meta.dest);
    }
    assert forall d :: Sends(tail[..i], d) ==> Sends(sources[..i + 1], d);
    assert sources[0] in sources[..i + 1];
  }

  /** What a session leaves in the records, given where it stops. */
  ghost predicate RecordsFit(records: Records, sources: seq<Source>, resume: bool, stop: Option<Stop>,
                             before: Records, after: Records) {
    match stop
    case None => AllGone(sources, after) && forall d :: !Sends(sources, d) ==> Saved(after, d) == Saved(before, d)
    case Some(s) =>
      && s.index < |sources|
      && CutRecords(sources, s.index, CutRecord(records, sources[s.index], resume, s.taken), before, after)
  }

  lemma RecordsFitFirst(n: Net, records: Records, now: Records, sources: seq<Source>, resume: bool)
    requires sources != [] && (forall x :: x in sources ==> ValidSource(x)) && SameSaved(now, records, sources)
    requires ValidJob(JobOf(records, sources[0], resume)) && StopsFirst(JobOf(records, sources[0], resume), Budget(n))
    ensures
      var after := SendTasks(n, now, sources, resume).records;
      CutRecords(sources, 0, CutRecord(records, sources[0], resume, Minus(Budget(n), 8)), now, after)
  {
    assert sources[0] in sources;
    SameJob(now, records, sources, sources[0], resume);
    RecordsAfterStop(n, now, sources[0], resume);
    assert SendTasks(n, now, sources, resume) == SendTask(n, now, sources[0], resume);
    assert sources[0] in sources[..1];
  }

  lemma RecordsFitLater(records: Records, before: Records, mid: Records, after: Records, sources: seq<Source>,
                        resume: bool, stop: Option<Stop>)
    requires sources != [] && DistinctDests(sources)
    requires !sources[0].meta.isDir ==> Saved(mid, sources[0].meta.dest) == None
    requires forall d :: sources[0].meta.isDir || d != sources[0].meta.dest ==> Saved(mid, d) == Saved(before, d)
    requires RecordsFit(records, sources[1..], resume, stop, mid, after)
    ensures RecordsFit(records, sources, resume, Next(stop), before, after)
  {
    match stop
    case None =>
      assert sources == [sources[0]] + sources[1..] && sources[0] in sources;
      if !sources[0].meta.isDir {
        FirstApart(sources);
      }
      assert forall d :: Sends(sources[1..], d) ==> Sends(sources, d);
    case Some(s) =>
      CutRecordsLater(sources, s.index + 1, CutRecord(records, sources[s.index + 1], resume, s.taken), before, mid,
        after);
  }

  /** Whatever the network takes of a session of any length, what the client has recorded afterwards. */
  lemma {:induction false} RecordsAfterSession(n: Net, records: Records, now: Records, sources: seq<Source>,
                                               resume: bool)
    requires forall x :: x in sources ==> ValidSource(x)
    requires DistinctDests(sources) && SameSaved(now, records, sources)
    ensures forall j :: j in Jobs(records, sources, resume) ==> ValidJob(j)
    ensures
      RecordsFit(records, sources, resume, StopOf(Jobs(records, sources, resume), Budget(n)), now,
                 SendTasks(n, now, sources, resume).records)
    decreases |sources|
  {
    JobsValid(records, sources, resume);
    if sources != [] {
      var first := JobOf(records, sources[0], resume);
      FirstJob(records, sources, resume);
      if StopsFirst(first, Budget(n)) {
        RecordsFitFirst(n, records, now, sources, resume);
      } else {
        SameJob(now, records, sources, sources[0], resume);
        RecordsAfterTask(n, now, sources[0], resume);
        LaterSaved(n, records, now, sources, resume);
        var r := SendTask(n, now, sources[0], resume);
        RecordsAfterSession(r.net, records, r.records, sources[1..], resume);
        RecordsFitLater(records, now, r.records, SendTasks(r.net, r.records, sources[1..], resume).records,
                        sources, resume, StopOf(Jobs(records, sources[1..], resume), Budget(r.net)));
      }
    }
  }

  /** Every task with data has all of it, and its offset, among the first room bytes. */
  ghost predicate AllTaken(js: seq<Job>, room: nat)
    requires forall j :: j in js ==> ValidJob(j)
  {
    forall i :: 0 <= i < |js| && HasData(js[i]) ==> |Payloads(js[..i + 1])| <= room
  }

  predicate HasData(j: Job) {
    !j.meta.isDir && j.resume < |j.content|
  }

  lemma AllTakenFirst(js: seq<Job>, room: nat)
    requires js != [] && forall j :: j in js ==> ValidJob(j)
    ensures AllTaken(js, room) <==>
            (HasData(js[0]) ==> |Payload(js[0])| <= room) && AllTaken(js[1..], Minus(room, |Payload(js[0])|))
  {
    assert js[0] in js;
    assert js[..1] == [js[0]] && Payloads([js[0]]) == Payload(js[0]) + Payloads([js[0]][1..]);
    forall i | 0 < i < |js| && HasData(js[i])
      ensures |Payloads(js[..i + 1])| == |Payload(js[0])| + |Payloads(js[1..][..i])| && |Payloads(js[1..][..i])| > 0
    {
      FrontPayloads(js, i + 1);
      LastPayload(js[1..][..i]);
    }
    forall i | 0 < i < |js|
      ensures js[1..][i - 1] == js[i]
    {
    }
    if AllTaken(js, room) {
      forall i | 0 <= i < |js[1..]| && HasData(js[1..][i])
        ensures |Payloads(js[1..][..i + 1])| <= Minus(room, |Payload(js[0])|)
      {
        assert HasData(js[i + 1]);
      }
    }
  }

  lemma {:induction false} LastPayload(js: seq<Job>)
    requires js != [] && forall j :: j in js ==> ValidJob(j)
    ensures |Payloads(js)| >= 8
  {
    assert js[0] in js && |Payload(js[0])| >= 8;
  }

  lemma {:induction false} NoStopIff(js: seq<Job>, room: nat)
    requires forall j :: j in js ==> ValidJob(j)
    ensures StopOf(js, room) == None <==> AllTaken(js, room)
    decreases |js|
  {
    if js != [] {
      assert js[0] in js;
      AllTakenFirst(js, room);
      NoStopIff(js[1..], Minus(room, |Payload(js[0])|));
    }
  }

  lemma {:induction false} SendTasksOkIff(n: Net, records: Records, now: Records, sources: seq<Source>, resume: bool)
    requires forall x :: x in sources ==> ValidSource(x)
    requires DistinctDests(sources) && SameSaved(now, records, sources)
    ensures forall j :: j in Jobs(records, sources, resume) ==> ValidJob(j)
    ensures SendTasks(n, now, sources, resume).ok <==> StopOf(Jobs(records, sources, resume), Budget(n)) == None
    decreases |sources|
  {
    JobsValid(records, sources, resume);
    if sources != [] {
      FirstJob(records, sources, resume);
      SameJob(now, records, sources, sources[0], resume);
      if StopsFirst(JobOf(records, sources[0], resume), Budget(n)) {
        RecordsAfterStop(n, now, sources[0], resume);
      } else {
        RecordsAfterTask(n, now, sources[0], resume);
        LaterSaved(n, records, now, sources, resume);
        var r := SendTask(n, now, sources[0], resume);
        SendTasksOkIff(r.net, records, r.records, sources[1..], resume);
      }
    }
  }

  /** The sending half of syncRemote succeeds if and only if the network takes the stream up to the end of the
      last file that has data to send; what it does not take after that is not noticed here. */
  lemma SendingSucceedsIff(n: Net, records: Records, sources: seq<Source>, resume: bool)
    requires forall s :: s in sources ==> ValidSource(s)
    requires DistinctDests(sources) && |sources| < 0x8000_0000 && n.connected
    ensures forall j :: j in Jobs(records, sources, resume) ==> ValidJob(j)
    ensures
      var js := Jobs(records, sources, resume);
      SyncRemote(n, records, sources, resume).ok <==>
      forall i :: 0 <= i < |js| && HasData(js[i]) ==> HeaderSize(js) + |Payloads(js[..i + 1])| <= n.accept
  {
    JobsValid(records, sources, resume);
    var js := Jobs(records, sources, resume);
    var m := HeaderTaken(n, records, sources, resume);
    SendTasksOkIff(m, records, records, sources, resume);
    NoStopIff(js, Budget(m));
    TakenBehind(js, HeaderSize(js), n.accept);
  }

  lemma TakenBehind(js: seq<Job>, before: nat, room: nat)
    requires forall j :: j in js ==> ValidJob(j)
    ensures AllTaken(js, Minus(room, before)) <==>
            forall i :: 0 <= i < |js| && HasData(js[i]) ==> before + |Payloads(js[..i + 1])| <= room
  {
    forall i | 0 <= i < |js| && HasData(js[i])
      ensures |Payloads(js[..i + 1])| > 0
    {
      LastPayload(js[..i + 1]);
    }
  }

  /** What the network can still take once the header is sent. */
  lemma HeaderTaken(n: Net, records: Records, sources: seq<Source>, resume: bool) returns (m: Net)
    requires forall s :: s in sources ==> ValidSource(s)
    requires |sources| < 0x8000_0000 && forall j :: j in Jobs(records, sources, resume) ==> ValidJob(j)
    ensures SyncRemote(n, records, sources, resume) == SendTasks(m, records, sources, resume)
    ensures Budget(m) == Minus(Budget(n), HeaderSize(Jobs(records, sources, resume)))
  {
    Widths();
    var js, count := Jobs(records, sources, resume), EncodeSigned(|sources|, 4);
    MetasSendable(js);
    HeaderIsEncoding(records, sources, resume);
    var n1 := Send(Send(n, [0]), count);
    m := SendMany(n1, HeaderSends(sources));
    SendManyIsConcat(n1, HeaderSends(sources));
    SendTwice(n, [0], count);
    SendTwice(n, [0] + count, EncodeTasks(Metas(js)));
    OffsetTaken(n, [0] + count + EncodeTasks(Metas(js)));
  }

  lemma FirstJob(records: Records, sources: seq<Source>, resume: bool)
    requires sources != [] && forall x :: x in sources ==> ValidSource(x)
    ensures sources[0] in sources && ValidJob(JobOf(records, sources[0], resume))
    ensures Jobs(records, sources, resume)[0] == JobOf(records, sources[0], resume)
    ensures Jobs(records, sources, resume)[1..] == Jobs(records, sources[1..], resume)
  {
    JobsValid(records, sources, resume);
    assert Jobs(records, sources, resume)[0] in Jobs(records, sources, resume);
  }
}
