/** The parallel copy comes to an end: how many steps its tasks can take, where they can stop, and what they
    have done by then. */
module ParallelProgress {
  import opened Bytes
  import opened Results
  import opened ParallelCopy

  // ---------- every run ends ----------

  /** More than the number of steps that the task of a chunk of the given size has still to take, if each of its
      transfers moves a single byte. */
  function Ahead(c: Chunk, size: nat): nat {
    match c
    case Fresh => 2 * size + 7
    case Reading(got) => 2 * size + 6 - Min(|got|, size)
    case Writing(buf, written) => size + 5 - Min(written, size)
    case Written => 4
    case Counted(_) => 3
    case Failing => 1
    case Succeeded(_) => 0
    case Failed(_) => 0
  }

  /** The same for the chunks from number i on. */
  function AheadFrom(s: Copy, i: nat): nat
    decreases |s.chunks| - i
  {
    if i >= |s.chunks| then 0
    else Ahead(s.chunks[i], Size(s, i)) + AheadFrom(s, i + 1)
  }

  function Size(s: Copy, i: nat): nat {
    if ChunkLo(s, i) < ChunkHi(s, i) then ChunkHi(s, i) - ChunkLo(s, i) else 0
  }

  lemma {:induction false} AheadSame(s: Copy, s': Copy, i: nat)
    requires s'.src == s.src && s'.offset == s.offset && |s'.chunks| == |s.chunks|
    requires forall j :: i <= j < |s.chunks| ==> s'.chunks[j] == s.chunks[j]
    ensures AheadFrom(s', i) == AheadFrom(s, i)
    decreases |s.chunks| - i
  {
    if i < |s.chunks| {
      AheadSame(s, s', i + 1);
    }
  }

  lemma {:induction false} AheadLess(s: Copy, s': Copy, i: nat, k: nat)
    requires s'.src == s.src && s'.offset == s.offset && |s'.chunks| == |s.chunks| && i <= k < |s.chunks|
    requires forall j :: i <= j < |s.chunks| && j != k ==> s'.chunks[j] == s.chunks[j]
    requires Ahead(s'.chunks[k], Size(s, k)) < Ahead(s.chunks[k], Size(s, k))
    ensures AheadFrom(s', i) < AheadFrom(s, i)
    decreases |s.chunks| - i
  {
    if i < k {
      AheadLess(s, s', i + 1, k);
    } else {
      AheadSame(s, s', i + 1);
    }
  }

  /** One step of a chunk's own task. */
  lemma OwnStep(s: Copy, a: Action)
    requires DataInv(s) && Enabled(s, a) && !a.Interrupted?
    ensures Ahead(Step(s, a).chunks[a.i], Size(s, a.i)) < Ahead(s.chunks[a.i], Size(s, a.i))
  {
    assert ChunkInv(s, a.i);
  }

  lemma StepGoesAhead(s: Copy, a: Action)
    requires DataInv(s) && Enabled(s, a) && !a.Interrupted?
    ensures AheadFrom(Step(s, a), 0) < AheadFrom(s, 0)
  {
    OwnStep(s, a);
    AheadLess(s, Step(s, a), 0, a.i);
  }

  predicate Uninterrupted(run: seq<Action>) {
    forall a :: a in run ==> !a.Interrupted?
  }

  /** Interruptions aside, no run is longer than what was ahead of the tasks at its beginning. */
  lemma {:induction false} RunsEnd(s: Copy, run: seq<Action>, start: seq<byte>)
    requires Inv(s, start) && Possible(s, run) && Uninterrupted(run)
    ensures |run| + AheadFrom(RunFrom(s, run), 0) <= AheadFrom(s, 0)
    decreases |run|
  {
    if run != [] {
      StepKeepsInv(s, run[0], start);
      StepGoesAhead(s, run[0]);
      RunsEnd(Step(s, run[0]), run[1..], start);
    }
  }

  // ---------- where it ends ----------

  /** A step in which nothing goes wrong. */
  predicate Fine(a: Action) {
    !a.ReadFails? && !a.WriteFails? && !a.Interrupted?
  }

  /** A fine step of the i-th task, for as long as its future is not ready. */
  function FineStep(s: Copy, i: nat): Action
    requires i < |s.chunks| && !s.chunks[i].Succeeded? && !s.chunks[i].Failed?
  {
    match s.chunks[i]
    case Fresh => Start(i)
    case Reading(got) =>
      if ChunkLo(s, i) + |got| < ChunkHi(s, i) then Pread(i, ChunkHi(s, i) - (ChunkLo(s, i) + |got|)) else ReadDone(i)
    case Writing(buf, written) => if written < |buf| then Pwrite(i, |buf| - written) else WriteDone(i)
    case Written => FetchAdd(i)
    case Counted(_) => Save(i)
    case Failing => StoreError(i)
  }

  /** A task that has not returned can always take a fine step: none waits for another. */
  lemma NoTaskWaits(s: Copy, i: nat)
    requires DataInv(s) && i < |s.chunks| && !s.chunks[i].Succeeded? && !s.chunks[i].Failed?
    ensures Fine(FineStep(s, i)) && FineStep(s, i).i == i && Enabled(s, FineStep(s, i))
  {
    assert ChunkInv(s, i);
  }

  /** So the tasks come to rest exactly when all futures are ready. */
  lemma AtRestIffAllReturned(s: Copy)
    requires DataInv(s)
    ensures (forall a :: Fine(a) ==> !Enabled(s, a)) <==> AllReturned(s)
  {
    if !AllReturned(s) {
      var i :| 0 <= i < |s.chunks| && !s.chunks[i].Succeeded? && !s.chunks[i].Failed?;
      NoTaskWaits(s, i);
    }
  }

  // ---------- what it has done by then ----------

  predicate NoneFails(s: Copy) {
    !s.hasError && forall i :: 0 <= i < |s.chunks| ==> s.chunks[i] != Failing && !s.chunks[i].Failed?
  }

  lemma {:induction false} FineRunsFailNothing(s: Copy, run: seq<Action>)
    requires NoneFails(s) && Possible(s, run) && forall a :: a in run ==> !a.ReadFails? && !a.WriteFails?
    ensures NoneFails(RunFrom(s, run))
    decreases |run|
  {
    if run != [] {
      FineRunsFailNothing(Step(s, run[0]), run[1..]);
    }
  }

  /** If no read and no write fails, the copy reports success whenever it comes to rest. */
  lemma WithoutFailuresItSucceeds(src: seq<byte>, old_: seq<byte>, offset: nat, run: seq<Action>, s: Copy)
    requires offset <= |src| && Completes(src, old_, offset, run, s)
    requires forall a :: a in run ==> !a.ReadFails? && !a.WriteFails?
    ensures AllSucceeded(s)
  {
    FineRunsFailNothing(Init(src, old_, offset), run);
  }

  /** And it can always be brought to rest. */
  lemma {:induction false} CanFinish(s: Copy, start: seq<byte>) returns (run: seq<Action>)
    requires Inv(s, start)
    ensures Possible(s, run) && AllReturned(RunFrom(s, run)) && forall a :: a in run ==> Fine(a)
    decreases AheadFrom(s, 0)
  {
    if AllReturned(s) {
      run := [];
    } else {
      var i :| 0 <= i < |s.chunks| && !s.chunks[i].Succeeded? && !s.chunks[i].Failed?;
      NoTaskWaits(s, i);
      var a := FineStep(s, i);
      StepKeepsInv(s, a, start);
      StepGoesAhead(s, a);
      var rest := CanFinish(Step(s, a), start);
      run := [a] + rest;
      assert run[1..] == rest;
    }
  }

  /** Every source can be copied in parallel: there is a run that completes with success. */
  lemma SomeRunSucceeds(src: seq<byte>, old_: seq<byte>, offset: nat)
    requires offset <= |src|
    ensures exists run, s :: Completes(src, old_, offset, run, s) && AllSucceeded(s)
  {
    InitInv(src, old_, offset);
    var run := CanFinish(Init(src, old_, offset), Launch(src, old_, offset));
    var s := RunFrom(Init(src, old_, offset), run);
    assert Completes(src, old_, offset, run, s);
    WithoutFailuresItSucceeds(src, old_, offset, run, s);
  }

  /** A file of so many chunks that their number is negative as an int: every run is empty, reports success, and
      leaves nothing but zeros. */
  lemma HugeFileIsNotCopied(src: seq<byte>, old_: seq<byte>, run: seq<Action>)
    requires 0x7FFF_FFFF * 4_194_304 < |src| <= 0xFFFF_FFFF * 4_194_304
    requires Possible(Init(src, old_, 0), run)
    ensures
      var s := RunFrom(Init(src, old_, 0), run);
      Completes(src, old_, 0, run, s) && AllSucceeded(s) && s.dest == Zeros(|src|)
  {
    NoChunksWhenCountIsNegative(0, |src|);
    assert Init(src, old_, 0).chunks == [];
  }

  // ---------- when a failure is still possible ----------

  /** The task of the chunk has a read or a write before it, or is about to report one that failed. */
  predicate CanFail(c: Chunk) {
    match c
    case Fresh => true
    case Reading(_) => true
    case Writing(buf, written) => written < |buf|
    case Failing => true
    case _ => false
  }

  ghost predicate PastFailing(s: Copy) {
    !s.hasError && forall i :: 0 <= i < |s.chunks| ==> !CanFail(s.chunks[i]) && !s.chunks[i].Failed?
  }

  lemma {:induction false} PastFailingStays(s: Copy, run: seq<Action>)
    requires PastFailing(s) && Possible(s, run)
    ensures !RunFrom(s, run).hasError
    decreases |run|
  {
    if run != [] {
      assert !CanFail(s.chunks[run[0].i]);
      PastFailingStays(Step(s, run[0]), run[1..]);
    }
  }

  lemma OneStep(s: Copy, a: Action, rest: seq<Action>)
    requires Enabled(s, a) && Possible(Step(s, a), rest)
    ensures Possible(s, [a] + rest) && RunFrom(s, [a] + rest) == RunFrom(Step(s, a), rest)
  {
    assert ([a] + rest)[1..] == rest;
  }

  /** The way of a chunk's task into the error flag. */
  lemma {:induction false} WayToFail(s: Copy, i: nat) returns (run: seq<Action>)
    requires DataInv(s) && i < |s.chunks| && !s.hasError && CanFail(s.chunks[i])
    ensures Possible(s, run) && RunFrom(s, run).hasError
    decreases match s.chunks[i] case Fresh => 3 case Reading(_) => 2 case Writing(_, _) => 1 case _ => 0
  {
    assert ChunkInv(s, i);
    var a :=
      match s.chunks[i]
      case Fresh => Start(i)
      case Reading(got) => if ChunkLo(s, i) + |got| < ChunkHi(s, i) then ReadFails(i) else ReadDone(i)
      case Writing(_, _) => WriteFails(i)
      case _ => StoreError(i);
    var rest := [];
    if !a.StoreError? {
      DataStep(s, a);
      rest := WayToFail(Step(s, a), i);
    }
    OneStep(s, a, rest);
    run := [a] + rest;
  }

  /** A copy that has not failed can still fail if and only if some task has a read or a write before it: once all
      bytes are written, nothing stands in the way of success. */
  lemma CanFailIff(s: Copy, start: seq<byte>)
    requires Inv(s, start) && !s.hasError
    ensures (exists run :: Possible(s, run) && RunFrom(s, run).hasError) <==>
            exists i :: 0 <= i < |s.chunks| && CanFail(s.chunks[i])
  {
    if i :| 0 <= i < |s.chunks| && CanFail(s.chunks[i]) {
      var run := WayToFail(s, i);
    } else {
      forall run | Possible(s, run)
        ensures !RunFrom(s, run).hasError
      {
        PastFailingStays(s, run);
      }
    }
  }

  // ---------- the error flag and the record ----------

  /** Once the flag is set, a task that has not started returns false without having read or written anything. */
  lemma {:induction false} NothingStartsAfterError(s: Copy, run: seq<Action>, i: nat)
    requires s.hasError && Possible(s, run) && i < |s.chunks| && (s.chunks[i] == Fresh || s.chunks[i] == Failed(false))
    ensures
      var s' := RunFrom(s, run);
      s'.hasError && (s'.chunks[i] == Failed(false) || (s'.chunks[i] == Fresh && s.chunks[i] == Fresh))
    decreases |run|
  {
    if run != [] {
      NothingStartsAfterError(Step(s, run[0]), run[1..], i);
    }
  }

  /** The record is there once some task has succeeded, and then it is one of the values taken from the
      counter. */
  ghost predicate RecordInv(s: Copy) {
    && (s.record == None <==> forall i :: 0 <= i < |s.chunks| ==> !s.chunks[i].Succeeded?)
    && (s.record.Some? ==> s.record.value in s.values)
    && (forall i :: 0 <= i < |s.chunks| && s.chunks[i].Counted? ==> s.chunks[i].value in s.values)
  }

  lemma RecordStep(s: Copy, a: Action)
    requires RecordInv(s) && Enabled(s, a)
    ensures RecordInv(Step(s, a))
  {
    var s' := Step(s, a);
    assert forall j :: 0 <= j < |s.chunks| && j != a.i ==> s'.chunks[j] == s.chunks[j];
    if a.Save? {
      assert s'.chunks[a.i].Succeeded?;
    } else if s.record.Some? {
      var i :| 0 <= i < |s.chunks| && s.chunks[i].Succeeded?;
      assert s'.chunks[i].Succeeded?;
    }
  }

  lemma {:induction false} RunKeepsRecord(s: Copy, run: seq<Action>)
    requires RecordInv(s) && Possible(s, run)
    ensures RecordInv(RunFrom(s, run))
    decreases |run|
  {
    if run != [] {
      RecordStep(s, run[0]);
      RunKeepsRecord(Step(s, run[0]), run[1..]);
    }
  }

  lemma RecordIsACounterValue(src: seq<byte>, old_: seq<byte>, offset: nat, run: seq<Action>)
    requires offset <= |src| && Possible(Init(src, old_, offset), run)
    ensures RecordInv(RunFrom(Init(src, old_, offset), run))
  {
    RunKeepsRecord(Init(src, old_, offset), run);
  }
}
