/** syncFile and resumeSync: which transfers a call makes, what it does when one fails, and what any
    number of calls leave behind. */
module FileCopy {
  import opened Bytes
  import opened Results
  import opened ProgressRecord
  import opened SequentialCopy
  import opened Conflict
  import Par = ParallelCopy

  const LARGE_FILE_THRESHOLD: nat := 10 * 1024 * 1024

  /** What becomes of the steps that one call may make: renamed tells whether rename(2) succeeds, and
      parallel is the state in which the futures of the parallel copy have been collected. */
  datatype Fates = Fates(renamed: bool, resumed: Fate, parallel: Par.Copy, plain: Fate)

  /** What cleanupCorruptedFile leaves. */
  const CLEAN: Disk := Disk(None, None)

  predicate InParallel(src: seq<byte>, pooled: bool) {
    |src| >= LARGE_FILE_THRESHOLD && pooled
  }

  function ResumeSync(src: seq<byte>, path: Path, d: Disk, fate: Fate): Transfer {
    var progress := LoadProgress(path, d.record);
    if HasProgress(progress) then Transferred(src, d, progress.offset, fate) else Transfer(Returned(false), d)
  }

  /** The last resort of syncFile: a copy from the start, and no trace of it if it fails. */
  function PlainSync(src: seq<byte>, d: Disk, fate: Fate): Transfer {
    var t := Transferred(src, d, 0, fate);
    if t.end == Returned(false) then Transfer(Returned(false), CLEAN) else t
  }

  function FreshSync(src: seq<byte>, d: Disk, pooled: bool, e: Fates): Transfer {
    if !InParallel(src, pooled) then PlainSync(src, d, e.plain)
    else if Par.AllSucceeded(e.parallel) then Transfer(Returned(true), Disk(Some(e.parallel.dest), None))
    else PlainSync(src, CLEAN, e.plain)
  }

  /** The copying part of syncFile: a resumed transfer that fails is followed by a fresh one. */
  function CopyFile(src: seq<byte>, path: Path, d: Disk, pooled: bool, e: Fates): Transfer {
    var r := ResumeSync(src, path, d, e.resumed);
    if r.end == Returned(false) then FreshSync(src, r.disk, pooled, e) else r
  }

  /** handleConflict lets syncFile go no further. */
  predicate Refused(d: Disk, s: Strategy, e: Fates) {
    d.dest.Some? && (s.Skip? || (s.Rename? && !e.renamed))
  }

  /** handleConflict: a rename moves the destination away and leaves its record. */
  function AfterConflict(d: Disk, s: Strategy): Disk {
    if s.Rename? then d.(dest := None) else d
  }

  /** syncFile, for a source that exists and a destination whose directory does. */
  function SyncFile(src: seq<byte>, path: Path, d: Disk, s: Strategy, pooled: bool, e: Fates): Transfer {
    if Refused(d, s, e) then Transfer(Returned(false), d)
    else CopyFile(src, path, AfterConflict(d, s), pooled, e)
  }

  /** The same as methods on the files of one destination path. */
  class Copier {
    const path: Path
    var disk: Disk
    /** The file next to the destination whose name ends in .bak. */
    var backup: Option<seq<byte>>

    constructor (path: Path, disk: Disk, backup: Option<seq<byte>>)
      ensures this.path == path && this.disk == disk && this.backup == backup
    {
      this.path, this.disk, this.backup := path, disk, backup;
    }

    method TransferFile(src: seq<byte>, offset: nat, fate: Fate) returns (end: End)
      modifies this`disk
      ensures Transfer(end, disk) == Transferred(src, old(disk), offset, fate)
    {
      disk := disk.(dest := Some(if offset > 0 && disk.dest.Some? then disk.dest.value else []));
      var transferred, left := offset, fate;
      while transferred + BLOCK <= |src| && !StopsNow(left)
        invariant disk.dest.Some?
        invariant CopyBlocks(src, disk, transferred, left) == Transferred(src, old(disk), offset, fate)
        decreases |src| - transferred
      {
        var next := transferred + BLOCK;
        if FailsNow(left) {
          var n := Min(left.partial, BLOCK);
          disk := disk.(dest := Some(disk.dest.value + src[transferred..transferred + n]));
          disk := disk.(record := if left.saved then Some(Record(transferred, |src|)) else None);
          return Returned(false);
        }
        disk := disk.(dest := Some(disk.dest.value + src[transferred..next]));
        transferred, left := next, Later(left);
        disk := disk.(record := AfterSave(Record(transferred, |src|), left));
      }
      if StopsNow(left) {
        var n := Min(left.partial, Min(BLOCK, Left(src, transferred)));
        disk := disk.(dest := Some(disk.dest.value + From(src, transferred)[..n]));
        return Killed;
      }
      disk := disk.(dest := Some(disk.dest.value + LastWrite(From(src, transferred), left)));
      disk := disk.(record := None);
      end := Returned(true);
    }

    method Resume(src: seq<byte>, fate: Fate) returns (end: End)
      modifies this`disk
      ensures Transfer(end, disk) == ResumeSync(src, path, old(disk), fate)
    {
      var progress := LoadProgress(path, disk.record);
      if progress.offset > 0 && progress.total > 0 {
        end := TransferFile(src, progress.offset, fate);
      } else {
        end := Returned(false);
      }
    }

    method CleanUp()
      modifies this`disk
      ensures disk == CLEAN
    {
      disk := disk.(dest := None);
      disk := disk.(record := None);
    }

    method Copy(src: seq<byte>, pooled: bool, e: Fates) returns (end: End)
      modifies this`disk
      ensures Transfer(end, disk) == CopyFile(src, path, old(disk), pooled, e)
    {
      end := Resume(src, e.resumed);
      if end != Returned(false) {
        return;
      }
      if |src| >= LARGE_FILE_THRESHOLD && pooled {
        if Par.AllSucceeded(e.parallel) {
          disk := Disk(Some(e.parallel.dest), None);
          return Returned(true);
        }
        CleanUp();
      }
      end := TransferFile(src, 0, e.plain);
      if end == Returned(false) {
        CleanUp();
      }
    }

    /** syncFile. A rename keeps the old destination as the backup. */
    method Sync(src: seq<byte>, s: Strategy, pooled: bool, e: Fates) returns (end: End)
      modifies this`disk, this`backup
      ensures Transfer(end, disk) == SyncFile(src, path, old(disk), s, pooled, e)
      ensures backup == if s.Rename? && e.renamed && old(disk).dest.Some? then old(disk).dest else old(backup)
    {
      if disk.dest.Some? {
        if s.Skip? || (s.Rename? && !e.renamed) {
          return Returned(false);
        }
        if s.Rename? {
          backup := disk.dest;
          disk := disk.(dest := None);
        }
      }
      end := Copy(src, pooled, e);
    }
  }

  // ---------- one call ----------

  /** If the record can be loaded, the destination is the source's prefix of exactly that length. */
  ghost predicate Sound(src: seq<byte>, path: Path, d: Disk) {
    Loadable(path) ==> Consistent(src, d)
  }

  /** The parallel copy of src from the start came to an end in this state, under some interleaving. */
  ghost predicate Collected(src: seq<byte>, s: Par.Copy) {
    exists run :: Par.Completes(src, [], 0, run, s)
  }

  lemma CollectedIsSource(src: seq<byte>, s: Par.Copy)
    requires Collected(src, s) && Par.AllSucceeded(s) && |src| <= 0x7FFF_FFFF * Par.CHUNK
    ensures s.dest == src
  {
    var run :| Par.Completes(src, [], 0, run, s);
    Par.SuccessCopiesRange(src, [], 0, run, s);
  }

  predicate Resumes(path: Path, d: Disk) {
    Loadable(path) && d.record.Some?
  }

  /** When resumeSync transfers anything, on any files: there is a record, it can be loaded, and both its numbers
      are positive. Otherwise it returns false and nothing changes. */
  lemma ResumeIff(src: seq<byte>, path: Path, d: Disk, fate: Fate)
    ensures
      ResumeSync(src, path, d, fate) ==
      if Loadable(path) && d.record.Some? && d.record.value.offset > 0 && d.record.value.total > 0
      then Transferred(src, d, d.record.value.offset, fate) else Transfer(Returned(false), d)
  {
    LoadProgressIs(path, d.record);
  }

  /** What resumeSync does on sound files: it transfers from the recorded offset, or does nothing. */
  lemma ResumeOnSound(src: seq<byte>, path: Path, d: Disk, fate: Fate)
    requires Sound(src, path, d)
    ensures Resumes(path, d) ==>
      && Ready(src, d, d.record.value.offset)
      && ResumeSync(src, path, d, fate) == Transferred(src, d, d.record.value.offset, fate)
    ensures !Resumes(path, d) ==> ResumeSync(src, path, d, fate) == Transfer(Returned(false), d)
  {
    LoadProgressIs(path, d.record);
  }

  /** The resumed transfer of this call fails. */
  predicate ResumeFails(src: seq<byte>, path: Path, d: Disk, e: Fates) {
    Resumes(path, d) && EndOf(Left(src, d.record.value.offset), e.resumed) == Returned(false)
  }

  /** The last transfer that the call makes has its short last block cut. */
  predicate LastTransferCut(src: seq<byte>, path: Path, d: Disk, pooled: bool, e: Fates) {
    if Resumes(path, d) && !ResumeFails(src, path, d, e) then TailCut(Left(src, d.record.value.offset), e.resumed)
    else !(InParallel(src, pooled) && Par.AllSucceeded(e.parallel)) && TailCut(|src|, e.plain)
  }

  /** The strategy renames a destination that has a record: the record stays and the bytes it counts go. */
  predicate Parted(path: Path, d: Disk, s: Strategy) {
    s.Rename? && d.dest.Some? && Resumes(path, d)
  }

  /** The conflict step leaves sound files sound, unless it parts them. */
  lemma ConflictOnSound(src: seq<byte>, path: Path, d: Disk, s: Strategy)
    requires Sound(src, path, d)
    ensures Sound(src, path, AfterConflict(d, s)) <==> !Parted(path, d, s)
    ensures Resumes(path, AfterConflict(d, s)) <==> Resumes(path, d)
  {
  }

  /** A resumed transfer behind a renamed destination appends to nothing. */
  lemma ResumeOnParted(src: seq<byte>, path: Path, d: Disk, s: Strategy, fate: Fate)
    requires Sound(src, path, d) && Parted(path, d, s)
    ensures
      var at := d.record.value.offset;
      && 0 < at <= |src|
      && ResumeSync(src, path, AfterConflict(d, s), fate) ==
         Transfer(EndOf(|src| - at, fate),
                  Disk(Some(src[at..][..Appended(|src| - at, fate)]), RecordOf(src, d.record, at, fate)))
  {
    var d', at := AfterConflict(d, s), d.record.value.offset;
    LoadProgressIs(path, d'.record);
    CopyBlocksResult(src, Opened(d', at), at, fate);
    var appended := src[at..][..Appended(|src| - at, fate)];
    assert [] + appended == appended;
  }

  /** A call of syncFile that returns true has made the destination equal to the source, if and only if the
      write of the last short block of its last transfer was not cut, and it has not resumed behind a
      renamed destination. */
  lemma SyncFileExactIff(src: seq<byte>, path: Path, d: Disk, s: Strategy, pooled: bool, e: Fates)
    requires Sound(src, path, d) && Collected(src, e.parallel) && |src| <= 0x7FFF_FFFF * Par.CHUNK
    ensures
      var t := SyncFile(src, path, d, s, pooled, e);
      t.end == Returned(true) ==>
        && t.disk.record == None
        && (t.disk.dest == Some(src) <==>
              && !LastTransferCut(src, path, d, pooled, e)
              && (Parted(path, d, s) ==> ResumeFails(src, path, d, e)))
  {
    if !Refused(d, s, e) {
      var d' := AfterConflict(d, s);
      ConflictOnSound(src, path, d, s);
      if Parted(path, d, s) {
        ResumeOnParted(src, path, d, s, e.resumed);
        assert |src[d.record.value.offset..]| < |src|;
      } else {
        ResumeOnSound(src, path, d', e.resumed);
        if Resumes(path, d) {
          TransferExactIff(src, d', d.record.value.offset, e.resumed);
        }
      }
      FreshExactIff(src, ResumeSync(src, path, d', e.resumed).disk, pooled, e);
    }
  }

  lemma FreshExactIff(src: seq<byte>, d: Disk, pooled: bool, e: Fates)
    requires Collected(src, e.parallel) && |src| <= 0x7FFF_FFFF * Par.CHUNK
    ensures
      var t := FreshSync(src, d, pooled, e);
      t.end == Returned(true) ==>
        && t.disk.record == None
        && (t.disk.dest == Some(src) <==>
              (InParallel(src, pooled) && Par.AllSucceeded(e.parallel)) || !TailCut(|src|, e.plain))
  {
    if InParallel(src, pooled) && Par.AllSucceeded(e.parallel) {
      CollectedIsSource(src, e.parallel);
    } else {
      TransferExactIff(src, d, 0, e.plain);
      TransferExactIff(src, CLEAN, 0, e.plain);
    }
  }

  /** A call of syncFile that returns false has changed nothing if the conflict step refused it, and
      otherwise leaves neither a destination nor a record, whatever it found. */
  lemma FailedSyncLeavesNothing(src: seq<byte>, path: Path, d: Disk, s: Strategy, pooled: bool, e: Fates)
    ensures
      var t := SyncFile(src, path, d, s, pooled, e);
      t.end == Returned(false) ==> t.disk == if Refused(d, s, e) then d else CLEAN
  {
  }

  /** Which strategy stops the call at an existing destination, and what it leaves there: skip always does, a
      rename does when it fails. No other call ever depends on whether a rename would have failed. */
  lemma ConflictDecides(src: seq<byte>, path: Path, d: Disk, s: Strategy, pooled: bool, e: Fates)
    ensures
      SyncFile(src, path, d, s, pooled, e) ==
      match s
      case Overwrite => CopyFile(src, path, d, pooled, e)
      case Skip => if d.dest.Some? then Transfer(Returned(false), d) else CopyFile(src, path, d, pooled, e)
      case Rename =>
        if d.dest.Some? && !e.renamed then Transfer(Returned(false), d)
        else CopyFile(src, path, Disk(None, d.record), pooled, e)
  {
    if s.Skip? && d.dest == None {
      assert AfterConflict(d, s) == d;
    }
  }

  /** A file of less than 10 MiB is never copied in parallel, and no file is without a pool. */
  lemma SmallFilesGoBlockwise(src: seq<byte>, path: Path, d: Disk, pooled: bool, e: Fates, p: Par.Copy)
    requires |src| < 10_485_760 || !pooled
    ensures CopyFile(src, path, d, pooled, e) == CopyFile(src, path, d, pooled, e.(parallel := p))
  {
  }

  /** With a pool every larger file without progress is, and if that succeeds no other copy is made. */
  lemma LargeFilesGoParallel(src: seq<byte>, path: Path, d: Disk, e: Fates)
    requires |src| >= 10_485_760 && Par.AllSucceeded(e.parallel) && !HasProgress(LoadProgress(path, d.record))
    ensures CopyFile(src, path, d, true, e) == Transfer(Returned(true), Disk(Some(e.parallel.dest), None))
  {
  }

  /** Nothing fails, and the process is not killed. */
  predicate Undisturbed(e: Fates) {
    e.renamed && e.resumed.Finishes? && e.plain.Finishes?
  }

  /** What a caller can check before the call: there is nothing in the way, or it may be overwritten, or it
      is renamed and has no record that can be loaded. */
  predicate Clear(path: Path, d: Disk, s: Strategy) {
    s.Overwrite? || d.dest == None || (s.Rename? && !Resumes(path, d))
  }

  /** An undisturbed call on sound files succeeds and leaves exactly the source, if and only if the way is
      clear. */
  lemma UndisturbedExactIff(src: seq<byte>, path: Path, d: Disk, s: Strategy, pooled: bool, e: Fates)
    requires Sound(src, path, d) && Collected(src, e.parallel) && |src| <= 0x7FFF_FFFF * Par.CHUNK && Undisturbed(e)
    ensures SyncFile(src, path, d, s, pooled, e) == Transfer(Returned(true), Disk(Some(src), None))
            <==> Clear(path, d, s)
  {
    SyncFileExactIff(src, path, d, s, pooled, e);
    if Clear(path, d, s) {
      var d' := AfterConflict(d, s);
      ConflictOnSound(src, path, d, s);
      ResumeOnSound(src, path, d', e.resumed);
      if Resumes(path, d) {
        TransferExactIff(src, d', d.record.value.offset, Finishes);
      }
      TransferExactIff(src, d', 0, Finishes);
      TransferExactIff(src, CLEAN, 0, Finishes);
    }
  }

  /** A rename that parts the files: the undisturbed call reports success and leaves only the rest of the
      source. */
  lemma PartedCorrupts(src: seq<byte>, path: Path, d: Disk, s: Strategy, pooled: bool, e: Fates)
    requires Sound(src, path, d) && Parted(path, d, s) && Undisturbed(e)
    ensures
      var at := d.record.value.offset;
      && 0 < at <= |src| && src[at..] != src
      && SyncFile(src, path, d, s, pooled, e) == Transfer(Returned(true), Disk(Some(src[at..]), None))
  {
    ResumeOnParted(src, path, d, s, Finishes);
    var at := d.record.value.offset;
    assert src[at..][..|src| - at] == src[at..];
  }

  /** How one gets there: a first copy is killed after its first save, and the next call renames. */
  lemma RenameAfterKill(src: seq<byte>, path: Path, pooled: bool, first: Fates, next: Fates)
    requires |src| >= BLOCK && Loadable(path) && !InParallel(src, pooled)
    requires first.plain == Stopped(1, 0, true) && Undisturbed(next)
    ensures
      var killed := SyncFile(src, path, CLEAN, Rename, pooled, first);
      && killed == Transfer(Killed, Disk(Some(src[..BLOCK]), Some(Record(BLOCK, |src|))))
      && SyncFile(src, path, killed.disk, Rename, pooled, next) ==
         Transfer(Returned(true), Disk(Some(src[BLOCK..]), None))
  {
    LoadProgressIs(path, None);
    ReadyTransfer(src, CLEAN, 0, first.plain);
    assert Blocks(|src|) >= 1;
    var killed := SyncFile(src, path, CLEAN, Rename, pooled, first);
    PartedCorrupts(src, path, killed.disk, Rename, pooled, next);
  }

  /** The call after a failed one, on files that were sound: it is exact if the failed one got past the
      conflict step, and otherwise if and only if the way is clear now. */
  lemma SyncAfterFailureExactIff(src: seq<byte>, path: Path, d: Disk, s: Strategy, pooled: bool, e: Fates,
                                 s': Strategy, next: Fates)
    requires Sound(src, path, d) && SyncFile(src, path, d, s, pooled, e).end == Returned(false)
    requires Collected(src, next.parallel) && |src| <= 0x7FFF_FFFF * Par.CHUNK && Undisturbed(next)
    ensures
      SyncFile(src, path, SyncFile(src, path, d, s, pooled, e).disk, s', pooled, next)
      == Transfer(Returned(true), Disk(Some(src), None))
      <==> !Refused(d, s, e) || Clear(path, d, s')
  {
    FailedSyncLeavesNothing(src, path, d, s, pooled, e);
    UndisturbedExactIff(src, path, SyncFile(src, path, d, s, pooled, e).disk, s', pooled, next);
  }

  // ---------- any number of calls ----------

  /** The process is killed in the resumed transfer of this call with a record that does not fit: by bytes
      that followed the last save, or because the destination was renamed (unless the source repeats itself
      in just that place). */
  predicate ResumeTorn(src: seq<byte>, path: Path, d: Disk, s: Strategy, e: Fates) {
    && Resumes(path, d) && d.record.value.offset <= |src|
    && var at := d.record.value.offset;
       EndOf(|src| - at, e.resumed) == Killed
       && (e.resumed.blocks == 0 || e.resumed.saved)
       && if Parted(path, d, s) then !RepeatsItself(src, at, e.resumed) else Extra(|src| - at, e.resumed) > 0
  }

  /** What a transfer from at appends is the beginning of the source, up to where its record says. */
  predicate RepeatsItself(src: seq<byte>, at: nat, fate: Fate)
    requires at <= |src| && EndOf(|src| - at, fate) == Killed
  {
    BlocksFit(|src| - at, fate.blocks);
    src[at..][..Appended(|src| - at, fate)] == src[..After(at, fate.blocks)]
  }

  /** The record of a failed resumed transfer is still there when the fresh copy begins. */
  predicate StaleRecord(src: seq<byte>, path: Path, d: Disk, pooled: bool, e: Fates) {
    ResumeFails(src, path, d, e) && !InParallel(src, pooled) && e.resumed.saved
  }

  /** The process is killed in the fresh copy of this call, and the record then differs in length from the
      destination: after a save, by bytes that followed it; before the first, by the stale record. */
  predicate FreshTorn(src: seq<byte>, path: Path, d: Disk, pooled: bool, e: Fates) {
    && Loadable(path)
    && (Resumes(path, d) ==> ResumeFails(src, path, d, e))
    && !(InParallel(src, pooled) && Par.AllSucceeded(e.parallel))
    && EndOf(|src|, e.plain) == Killed
    && if e.plain.blocks > 0 then e.plain.saved && Extra(|src|, e.plain) > 0
       else StaleRecord(src, path, d, pooled, e) &&
            Extra(|src|, e.plain) != After(d.record.value.offset, e.resumed.blocks)
  }

  /** The call leaves a record that does not fit its destination. */
  predicate Torn(src: seq<byte>, path: Path, d: Disk, s: Strategy, pooled: bool, e: Fates) {
    !Refused(d, s, e) && (ResumeTorn(src, path, d, s, e) || FreshTorn(src, path, d, pooled, e))
  }

  /** A fresh copy on top of whatever was there. */
  lemma PlainSoundIff(src: seq<byte>, path: Path, d: Disk, fate: Fate)
    requires Loadable(path) && (d.record.Some? ==> 0 < d.record.value.offset <= |src| && d.record.value.total == |src|)
    ensures
      Sound(src, path, PlainSync(src, d, fate).disk) <==>
      (EndOf(|src|, fate) == Killed ==>
         if fate.blocks > 0 then !fate.saved || Extra(|src|, fate) == 0
         else d.record.Some? ==> Extra(|src|, fate) == d.record.value.offset)
  {
    ReadyTransfer(src, d, 0, fate);
    if EndOf(|src|, fate) == Killed {
      if fate.blocks > 0 {
        KilledConsistentIff(src, d, 0, fate);
      } else if d.record.Some? {
        assert |src[..Extra(|src|, fate)]| == Extra(|src|, fate);
      }
    }
  }

  /** The resumed transfer alone, on sound files. */
  lemma ResumeSoundIff(src: seq<byte>, path: Path, d: Disk, s: Strategy, e: Fates)
    requires Sound(src, path, d) && Resumes(path, d) && !ResumeFails(src, path, d, e)
    ensures
      Sound(src, path, ResumeSync(src, path, AfterConflict(d, s), e.resumed).disk) <==> !ResumeTorn(src, path, d, s, e)
  {
    var at := d.record.value.offset;
    var left := |src| - at;
    if Parted(path, d, s) {
      ResumeOnParted(src, path, d, s, e.resumed);
      BlocksFit(left, if e.resumed.Stopped? then e.resumed.blocks else 0);
    } else {
      ResumeOnSound(src, path, AfterConflict(d, s), e.resumed);
      ReadyTransfer(src, AfterConflict(d, s), at, e.resumed);
      if EndOf(left, e.resumed) == Killed {
        if e.resumed.blocks > 0 {
          KilledConsistentIff(src, AfterConflict(d, s), at, e.resumed);
        } else {
          assert |src[..at + Extra(left, e.resumed)]| == at + Extra(left, e.resumed);
        }
      }
    }
  }

  /** What a failed resumed transfer leaves in the progress file. */
  lemma FailedResumeRecord(src: seq<byte>, path: Path, d: Disk, s: Strategy, e: Fates)
    requires Sound(src, path, d) && ResumeFails(src, path, d, e)
    ensures
      var o := After(d.record.value.offset, e.resumed.blocks);
      var r := ResumeSync(src, path, AfterConflict(d, s), e.resumed);
      && 0 < o <= |src| && r.end == Returned(false)
      && r.disk.record == if e.resumed.saved then Some(Record(o, |src|)) else None
  {
    var at := d.record.value.offset;
    BlocksFit(|src| - at, e.resumed.blocks);
    if Parted(path, d, s) {
      ResumeOnParted(src, path, d, s, e.resumed);
    } else {
      ResumeOnSound(src, path, AfterConflict(d, s), e.resumed);
      ReadyTransfer(src, AfterConflict(d, s), at, e.resumed);
    }
  }

  /** Every call of syncFile, under every strategy, killed at any byte, failed or successful, keeps the
      destination and the record in step, if and only if it is not torn. */
  lemma SyncKeepsSoundIff(src: seq<byte>, path: Path, d: Disk, s: Strategy, pooled: bool, e: Fates)
    requires Sound(src, path, d)
    ensures Sound(src, path, SyncFile(src, path, d, s, pooled, e).disk) <==> !Torn(src, path, d, s, pooled, e)
  {
    if !Refused(d, s, e) && Loadable(path) {
      var d' := AfterConflict(d, s);
      LoadProgressIs(path, d'.record);
      var r := ResumeSync(src, path, d', e.resumed);
      if ResumeFails(src, path, d, e) {
        FailedResumeRecord(src, path, d, s, e);
        PlainSoundIff(src, path, if InParallel(src, pooled) then CLEAN else r.disk, e.plain);
      } else if Resumes(path, d) {
        ResumeSoundIff(src, path, d, s, e);
        ResumedReturns(src, path, d, s, e);
      } else {
        PlainSoundIff(src, path, if InParallel(src, pooled) then CLEAN else d', e.plain);
      }
    }
  }

  lemma ResumedReturns(src: seq<byte>, path: Path, d: Disk, s: Strategy, e: Fates)
    requires Sound(src, path, d) && Resumes(path, d) && !ResumeFails(src, path, d, e)
    ensures ResumeSync(src, path, AfterConflict(d, s), e.resumed).end != Returned(false)
  {
    if Parted(path, d, s) {
      ResumeOnParted(src, path, d, s, e.resumed);
    } else {
      ResumeOnSound(src, path, AfterConflict(d, s), e.resumed);
      ReadyTransfer(src, AfterConflict(d, s), d.record.value.offset, e.resumed);
    }
  }

  /** What a torn call leads to when the process was killed in the fresh copy before its first save: the
      next undisturbed call appends the rest of the source to the few bytes there and reports success. */
  lemma StaleRecordCorrupts(src: seq<byte>, path: Path, d: Disk, s: Strategy, pooled: bool, e: Fates, next: Fates)
    requires Sound(src, path, d) && !Refused(d, s, e) && FreshTorn(src, path, d, pooled, e) && e.plain.blocks == 0
    requires Undisturbed(next)
    ensures
      var o := After(d.record.value.offset, e.resumed.blocks);
      var t := SyncFile(src, path, SyncFile(src, path, d, s, pooled, e).disk, Overwrite, pooled, next);
      && 0 < o <= |src|
      && t == Transfer(Returned(true), Disk(Some(src[..Extra(|src|, e.plain)] + src[o..]), None))
      && t.disk.dest != Some(src)
  {
    FailedResumeRecord(src, path, d, s, e);
    var r := ResumeSync(src, path, AfterConflict(d, s), e.resumed);
    ReadyTransfer(src, r.disk, 0, e.plain);
    var torn := SyncFile(src, path, d, s, pooled, e).disk;
    LoadProgressIs(path, torn.record);
    ResumeExactIffLengthsAgree(src, Extra(|src|, e.plain), torn.record.value.offset, torn.record);
    CopyBlocksResult(src, torn, torn.record.value.offset, Finishes);
    var rest := src[torn.record.value.offset..];
    assert rest[..|rest|] == rest;
  }

  /** One call of a history, with the strategy in force. */
  datatype Step = Step(strategy: Strategy, fates: Fates)

  function AfterAll(src: seq<byte>, path: Path, d: Disk, pooled: bool, calls: seq<Step>): Disk
    decreases |calls|
  {
    if calls == [] then d
    else
      var first := SyncFile(src, path, d, calls[0].strategy, pooled, calls[0].fates);
      AfterAll(src, path, first.disk, pooled, calls[1..])
  }

  /** No call of the history is torn. */
  predicate NeverTorn(src: seq<byte>, path: Path, d: Disk, pooled: bool, calls: seq<Step>)
    decreases |calls|
  {
    calls == [] ||
    (!Torn(src, path, d, calls[0].strategy, pooled, calls[0].fates) &&
     NeverTorn(src, path, SyncFile(src, path, d, calls[0].strategy, pooled, calls[0].fates).disk, pooled, calls[1..]))
  }

  lemma {:induction false} HistorySound(src: seq<byte>, path: Path, d: Disk, pooled: bool, calls: seq<Step>)
    requires Sound(src, path, d) && NeverTorn(src, path, d, pooled, calls)
    ensures Sound(src, path, AfterAll(src, path, d, pooled, calls))
    decreases |calls|
  {
    if calls != [] {
      SyncKeepsSoundIff(src, path, d, calls[0].strategy, pooled, calls[0].fates);
      var first := SyncFile(src, path, d, calls[0].strategy, pooled, calls[0].fates);
      HistorySound(src, path, first.disk, pooled, calls[1..]);
    }
  }

  /** Any number of calls under any strategies, killed, failed or successful, none of them torn, and then one
      undisturbed call: it leaves exactly the source and no record, if and only if the way is clear, whatever
      the destination held at first. */
  lemma CallsReachTheSourceIff(src: seq<byte>, path: Path, old_: Option<seq<byte>>, pooled: bool, calls: seq<Step>,
                               s: Strategy, last: Fates)
    requires NeverTorn(src, path, Disk(old_, None), pooled, calls)
    requires Collected(src, last.parallel) && |src| <= 0x7FFF_FFFF * Par.CHUNK && Undisturbed(last)
    ensures
      var d := AfterAll(src, path, Disk(old_, None), pooled, calls);
      SyncFile(src, path, d, s, pooled, last) == Transfer(Returned(true), Disk(Some(src), None)) <==> Clear(path, d, s)
  {
    HistorySound(src, path, Disk(old_, None), pooled, calls);
    UndisturbedExactIff(src, path, AfterAll(src, path, Disk(old_, None), pooled, calls), s, pooled, last);
  }

  // ---------- resumeSync alone ----------

  /** resumeSync does not clean up. After one whose write of a whole block failed and whose save succeeded,
      the next resumeSync and the next syncFile under overwrite both resume and report success, and the
      destination is the source if and only if nothing of the failed block had reached it. */
  lemma FailedResumeThenResume(src: seq<byte>, path: Path, d: Disk, fate: Fate, pooled: bool, next: Fates)
    requires Sound(src, path, d) && Resumes(path, d) && Undisturbed(next)
    requires fate.WriteFails? && fate.saved && fate.blocks < Blocks(|src| - d.record.value.offset)
    ensures
      var t := ResumeSync(src, path, d, fate);
      var again := ResumeSync(src, path, t.disk, Finishes);
      && t.end == Returned(false) && again.end == Returned(true)
      && SyncFile(src, path, t.disk, Overwrite, pooled, next) == again
      && (again.disk.dest == Some(src) <==> fate.partial == 0)
  {
    ResumeOnSound(src, path, d, fate);
    FailedTransfer(src, d, d.record.value.offset, fate);
    var t := ResumeSync(src, path, d, fate);
    var o := t.disk.record.value.offset;
    LoadProgressIs(path, t.disk.record);
    ResumeExactIffLengthsAgree(src, o + Min(fate.partial, BLOCK), o, t.disk.record);
  }
}
