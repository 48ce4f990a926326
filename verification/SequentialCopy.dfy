/** The block-wise copy of one file: whole blocks, each followed by a save of the progress record, then
    the rest. */
module SequentialCopy {
  import opened Bytes
  import opened Results
  import opened ProgressRecord

  const BLOCK: nat := 4096

  /** The destination and what was last saved in the progress file, if they exist. */
  datatype Disk = Disk(dest: Option<seq<byte>>, record: Option<Record>)

  /** What becomes of a transfer. Stopped: the process is killed when it has saved its record the given
      number of times and partial more bytes have reached the file. WriteFails: the given number of writes
      succeed, and of the next one only partial bytes reach the file. saved tells whether the last save
      succeeds; one that fails leaves an empty progress file, which loads like none. */
  datatype Fate =
    | Finishes
    | Stopped(blocks: nat, partial: nat, saved: bool)
    | WriteFails(blocks: nat, partial: nat, saved: bool)

  datatype End = Returned(ok: bool) | Killed

  datatype Transfer = Transfer(end: End, disk: Disk)

  function From(src: seq<byte>, at: nat): seq<byte> {
    if at <= |src| then src[at..] else []
  }

  function Left(src: seq<byte>, at: nat): (n: nat)
    ensures n == |From(src, at)|
  {
    if at <= |src| then |src| - at else 0
  }

  function Later(fate: Fate): Fate
    requires fate.Finishes? || fate.blocks > 0
  {
    if fate.Finishes? then fate else fate.(blocks := fate.blocks - 1)
  }

  predicate StopsNow(fate: Fate) {
    fate.Stopped? && fate.blocks == 0
  }

  predicate FailsNow(fate: Fate) {
    fate.WriteFails? && fate.blocks == 0
  }

  /** The write after the loop: its result is not looked at, so a failure is not noticed. */
  function LastWrite(rest: seq<byte>, fate: Fate): seq<byte> {
    if FailsNow(fate) then rest[..Min(fate.partial, |rest|)] else rest
  }

  /** The progress file after a save, given what is still to come. */
  function AfterSave(r: Record, later: Fate): Option<Record> {
    if StopsNow(later) && !later.saved then None else Some(r)
  }

  function CopyBlocks(src: seq<byte>, d: Disk, transferred: nat, fate: Fate): (t: Transfer)
    requires d.dest.Some?
    ensures t.disk.dest.Some?
    decreases |src| - transferred
  {
    if StopsNow(fate) then
      var n := Min(fate.partial, Min(BLOCK, Left(src, transferred)));
      Transfer(Killed, d.(dest := Some(d.dest.value + From(src, transferred)[..n])))
    else if transferred + BLOCK > |src| then
      Transfer(Returned(true), Disk(Some(d.dest.value + LastWrite(From(src, transferred), fate)), None))
    else if FailsNow(fate) then
      var n := Min(fate.partial, BLOCK);
      Transfer(Returned(false),
               Disk(Some(d.dest.value + src[transferred..transferred + n]),
                    if fate.saved then Some(Record(transferred, |src|)) else None))
    else
      var next, later := transferred + BLOCK, Later(fate);
      CopyBlocks(src, Disk(Some(d.dest.value + src[transferred..next]), AfterSave(Record(next, |src|), later)), next,
        later)
  }

  /** The destination as transferFile opens it: a positive offset appends, otherwise it is truncated. */
  function Opened(d: Disk, offset: nat): (r: Disk)
    ensures r.dest.Some?
  {
    d.(dest := Some(if offset > 0 && d.dest.Some? then d.dest.value else []))
  }

  /** transferFile. */
  function Transferred(src: seq<byte>, d: Disk, offset: nat, fate: Fate): (t: Transfer)
    ensures t.disk.dest.Some?
  {
    CopyBlocks(src, Opened(d, offset), offset, fate)
  }

  // ---------- one transfer in closed form ----------

  /** The whole blocks that are left, and the length of the last, short one. */
  function Blocks(left: nat): nat {
    left / BLOCK
  }

  function Tail(left: nat): nat {
    left % BLOCK
  }

  /** Where a transfer from at stands after the given number of blocks. */
  function After(at: nat, blocks: nat): nat {
    at + blocks * BLOCK
  }

  /** The write of the short last block fails before all of it reached the file. */
  predicate TailCut(left: nat, fate: Fate) {
    fate.WriteFails? && fate.blocks == Blocks(left) && fate.partial < Tail(left)
  }

  /** A transfer of left bytes is killed, fails, or returns true; the last also if its short last block
      could not be written. */
  function EndOf(left: nat, fate: Fate): End {
    match fate
    case Finishes => Returned(true)
    case Stopped(blocks, _, _) => if blocks <= Blocks(left) then Killed else Returned(true)
    case WriteFails(blocks, _, _) => Returned(blocks >= Blocks(left))
  }

  /** The bytes written after the last whole block by a transfer that is killed or fails. */
  function Extra(left: nat, fate: Fate): nat
    requires !fate.Finishes?
  {
    var done := fate.blocks * BLOCK;
    Min(fate.partial, Min(BLOCK, if done <= left then left - done else 0))
  }

  /** The bytes that a transfer of left bytes appends. */
  function Appended(left: nat, fate: Fate): (n: nat)
    ensures n <= left
  {
    if EndOf(left, fate) == Returned(true) && !TailCut(left, fate) then left
    else BlocksFit(left, fate.blocks); fate.blocks * BLOCK + Extra(left, fate)
  }

  /** What a transfer leaves in the progress file. */
  function RecordOf(src: seq<byte>, before: Option<Record>, at: nat, fate: Fate): Option<Record> {
    match EndOf(Left(src, at), fate)
    case Returned(true) => None
    case _ =>
      if fate.Stopped? && fate.blocks == 0 then before
      else if fate.saved then Some(Record(After(at, fate.blocks), |src|))
      else None
  }

  /** What a transfer leaves on the disk. */
  function DiskOf(src: seq<byte>, d: Disk, at: nat, fate: Fate): Disk
    requires d.dest.Some?
  {
    Disk(Some(d.dest.value + From(src, at)[..Appended(Left(src, at), fate)]), RecordOf(src, d.record, at, fate))
  }

  lemma BlocksFit(left: nat, blocks: nat)
    ensures blocks <= Blocks(left) ==> blocks * BLOCK <= left
  {
  }

  lemma LeftStep(left: nat, fate: Fate)
    requires left >= BLOCK && (fate.Finishes? || fate.blocks > 0)
    ensures EndOf(left, fate) == EndOf(left - BLOCK, Later(fate))
    ensures Appended(left, fate) == BLOCK + Appended(left - BLOCK, Later(fate))
  {
    assert Blocks(left) == Blocks(left - BLOCK) + 1 && Tail(left) == Tail(left - BLOCK);
  }

  /** What follows the first block, seen from the start. */
  lemma DiskOfStep(src: seq<byte>, d: Disk, at: nat, fate: Fate)
    requires d.dest.Some? && at + BLOCK <= |src| && (fate.Finishes? || fate.blocks > 0)
    ensures
      var next, later := at + BLOCK, Later(fate);
      var d' := Disk(Some(d.dest.value + src[at..next]), AfterSave(Record(next, |src|), later));
      DiskOf(src, d, at, fate) == DiskOf(src, d', next, later)
  {
    var next, left, later := at + BLOCK, Left(src, at), Later(fate);
    LeftStep(left, fate);
    var n := Appended(left - BLOCK, later);
    assert From(src, at)[..BLOCK + n] == src[at..next] + From(src, next)[..n];
    assert d.dest.value + (src[at..next] + From(src, next)[..n]) == d.dest.value + src[at..next] + From(src, next)[..n];
    if !fate.Finishes? {
      assert After(next, later.blocks) == After(at, fate.blocks);
    }
  }

  /** How a transfer ends and what it leaves, for every fate. */
  lemma {:induction false} CopyBlocksResult(src: seq<byte>, d: Disk, at: nat, fate: Fate)
    requires d.dest.Some?
    ensures CopyBlocks(src, d, at, fate) == Transfer(EndOf(Left(src, at), fate), DiskOf(src, d, at, fate))
    decreases |src| - at
  {
    if StopsNow(fate) || at + BLOCK > |src| || FailsNow(fate) {
      LastBlock(src, d, at, fate);
    } else {
      var next, later := at + BLOCK, Later(fate);
      var d' := Disk(Some(d.dest.value + src[at..next]), AfterSave(Record(next, |src|), later));
      CopyBlocksResult(src, d', next, later);
      LeftStep(Left(src, at), fate);
      DiskOfStep(src, d, at, fate);
    }
  }

  lemma LastBlock(src: seq<byte>, d: Disk, at: nat, fate: Fate)
    requires d.dest.Some? && (StopsNow(fate) || at + BLOCK > |src| || FailsNow(fate))
    ensures CopyBlocks(src, d, at, fate) == Transfer(EndOf(Left(src, at), fate), DiskOf(src, d, at, fate))
  {
    var rest, left := From(src, at), Left(src, at);
    assert rest[..left] == rest;
    if at + BLOCK > |src| {
      assert Blocks(left) == 0 && Tail(left) == left;
    } else {
      assert Blocks(left) > 0;
      if FailsNow(fate) {
        var n := Min(fate.partial, BLOCK);
        assert src[at..at + n] == rest[..n];
      }
    }
  }

  // ---------- when a transfer is exact ----------

  /** The record, if any, is a positive length, and the destination is the source's prefix of exactly
      that length. Without a record nothing is claimed: the next copy starts over. */
  ghost predicate Consistent(src: seq<byte>, d: Disk) {
    d.record.Some? ==>
      && 0 < d.record.value.offset <= |src| && d.record.value.total == |src|
      && d.dest == Some(src[..d.record.value.offset])
  }

  /** d is what a transfer from at may rely on: nothing when it starts over, and the source's bytes up to
      at when it resumes. */
  ghost predicate Ready(src: seq<byte>, d: Disk, at: nat) {
    at <= |src| && (at > 0 ==> d.dest == Some(src[..at]))
  }

  lemma ReadyOpened(src: seq<byte>, d: Disk, at: nat)
    requires Ready(src, d, at)
    ensures Opened(d, at).dest == Some(src[..at])
  {
    assert src[..0] == [];
  }

  /** A transfer that is ready and returns true makes the destination equal to the source if and only if
      the write of its short last block was not cut; a cut one is reported as a success all the same. */
  lemma TransferExactIff(src: seq<byte>, d: Disk, at: nat, fate: Fate)
    requires Ready(src, d, at)
    ensures
      var t := Transferred(src, d, at, fate);
      && t.end == EndOf(|src| - at, fate)
      && (t.end == Returned(true) ==>
         t.disk.record == None && (t.disk.dest == Some(src) <==> !TailCut(|src| - at, fate)))
  {
    ReadyTransfer(src, d, at, fate);
    var n := Appended(|src| - at, fate);
    assert src[..|src|] == src;
    if EndOf(|src| - at, fate) == Returned(true) && TailCut(|src| - at, fate) {
      assert n < |src| - at;
      assert |src[..at + n]| != |src|;
    }
  }

  /** A transfer that is ready leaves a prefix of the source, whatever becomes of it. */
  lemma ReadyTransfer(src: seq<byte>, d: Disk, at: nat, fate: Fate)
    requires Ready(src, d, at)
    ensures Transferred(src, d, at, fate) ==
            Transfer(EndOf(|src| - at, fate),
                     Disk(Some(src[..at + Appended(|src| - at, fate)]), RecordOf(src, d.record, at, fate)))
  {
    ReadyOpened(src, d, at);
    CopyBlocksResult(src, Opened(d, at), at, fate);
    var n := Appended(|src| - at, fate);
    assert src[..at] + src[at..][..n] == src[..at + n];
  }

  /** The smallest such failure: ten bytes, of which three are written. */
  lemma CutTailReportsSuccess()
    ensures
      var src: seq<byte> := [1, 2, 3, 4, 5, 6, 7, 8, 9, 10];
      Transferred(src, Disk(None, None), 0, WriteFails(0, 3, true)) ==
        Transfer(Returned(true), Disk(Some([1, 2, 3]), None))
  {
    var src: seq<byte> := [1, 2, 3, 4, 5, 6, 7, 8, 9, 10];
    assert src[0..] == src && src[..3] == [1, 2, 3];
    assert [] + src[..3] == [1, 2, 3];
  }

  /** A transfer killed after a save, with not a byte more written, leaves the source's prefix of exactly the
      recorded length; if bytes did follow, it does so exactly when the save had failed. */
  lemma KilledConsistentIff(src: seq<byte>, d: Disk, at: nat, fate: Fate)
    requires Ready(src, d, at) && fate.Stopped? && 0 < fate.blocks <= Blocks(|src| - at)
    ensures
      var t := Transferred(src, d, at, fate);
      t.end == Killed && (Consistent(src, t.disk) <==> Extra(|src| - at, fate) == 0 || !fate.saved)
  {
    ReadyTransfer(src, d, at, fate);
    BlocksFit(|src| - at, fate.blocks);
    var to, x := After(at, fate.blocks), Extra(|src| - at, fate);
    assert |src[..to + x]| == to + x && |src[..to]| == to;
  }

  /** What it has recorded is where it began and 4096 bytes for every save. */
  lemma KilledRecord(src: seq<byte>, d: Disk, at: nat, fate: Fate)
    requires d.dest.Some? && fate.Stopped? && fate.saved && 0 < fate.blocks && at + 4096 * fate.blocks <= |src|
    ensures
      var t := Transferred(src, d, at, fate);
      t.end == Killed && t.disk.record == Some(Record(at + 4096 * fate.blocks, |src|))
  {
    CopyBlocksResult(src, Opened(d, at), at, fate);
    assert fate.blocks <= Blocks(|src| - at);
  }

  /** A transfer whose write of a whole block fails: the record says where that block begins, and the
      destination goes on for as much of it as was written. */
  lemma FailedTransfer(src: seq<byte>, d: Disk, at: nat, fate: Fate)
    requires Ready(src, d, at) && fate.WriteFails? && fate.blocks < Blocks(|src| - at)
    ensures
      var to := After(at, fate.blocks);
      && to + BLOCK <= |src|
      && Transferred(src, d, at, fate) ==
         Transfer(Returned(false), Disk(Some(src[..to + Min(fate.partial, BLOCK)]),
                                        if fate.saved then Some(Record(to, |src|)) else None))
  {
    ReadyTransfer(src, d, at, fate);
    BlocksFit(|src| - at, fate.blocks + 1);
  }

  /** Resuming behind a source prefix of length m with a record of offset o reaches the source if and only
      if the two agree, or both are at the end. */
  lemma ResumeExactIffLengthsAgree(src: seq<byte>, m: nat, o: nat, record: Option<Record>)
    requires m <= |src| && 0 < o
    ensures
      var t := Transferred(src, Disk(Some(src[..m]), record), o, Finishes);
      t.end == Returned(true) && (t.disk.dest == Some(src) <==> m == Min(o, |src|))
  {
    CopyBlocksResult(src, Disk(Some(src[..m]), record), o, Finishes);
    var r := src[..m] + From(src, o);
    assert From(src, o)[..Left(src, o)] == From(src, o);
    if m == o {
      assert r == src;
    } else if o > |src| {
      assert r == src[..m] && src[..|src|] == src;
    } else {
      assert |r| != |src|;
    }
  }
}
