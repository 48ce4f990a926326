/** The parallel copy of a large file: one task per chunk, all running at once on the same two
    descriptors, with a shared byte counter and a shared error flag. Every interleaving of the tasks'
    system calls is a run of the step machine below. */
module ParallelCopy {
  import opened Bytes
  import opened Results
  import Seq = SequentialCopy

  const CHUNK: nat := 4 * 1024 * 1024

  /** numChunks, an int computed from off_t values; a negative count runs no task. */
  function ChunkCount(offset: nat, size: nat): nat
    requires offset <= size
  {
    var n := WrapInt32((size - offset + CHUNK - 1) / CHUNK);
    if n < 0 then 0 else n
  }

  function Lo(offset: nat, i: nat): nat {
    offset + i * CHUNK
  }

  function Hi(offset: nat, size: nat, i: nat): nat {
    if offset + i * CHUNK + CHUNK < size then offset + i * CHUNK + CHUNK else size
  }

  /** Where one chunk's task stands. Reading and Writing are the loops of robustPread and robustPwrite;
      Written is about to fetch_add; Counted(v) got v from it and is about to save the record. A task
      that fails by itself stores the flag on the way to Failed(true); one that finds the flag set
      returns without doing anything: Failed(false). */
  datatype Chunk =
    | Fresh | Reading(got: seq<byte>) | Writing(buf: seq<byte>, written: nat) | Written
    | Counted(value: int) | Succeeded(value: int) | Failing | Failed(own: bool)

  /** values lists what fetch_add returned plus the chunk's size, in order. */
  datatype Copy = Copy(
    src: seq<byte>, dest: seq<byte>, offset: nat, transferred: int, hasError: bool,
    record: Option<int>, chunks: seq<Chunk>, values: seq<int>)

  datatype Action =
    | Start(i: nat) | Pread(i: nat, n: nat) | ReadFails(i: nat) | ReadDone(i: nat)
    | Pwrite(i: nat, n: nat) | WriteFails(i: nat) | WriteDone(i: nat) | Interrupted(i: nat)
    | FetchAdd(i: nat) | Save(i: nat) | StoreError(i: nat)

  /** pwrite(2): writing past the end fills the gap with zeros. */
  function WriteAt(f: seq<byte>, at: nat, data: seq<byte>): (r: seq<byte>)
    ensures |r| == if |f| < at + |data| then at + |data| else |f|
    ensures forall p :: 0 <= p < |r| ==>
      r[p] == if at <= p < at + |data| then data[p - at] else if p < |f| then f[p] else 0
  {
    var g := if |f| < at then f + Zeros(at - |f|) else f;
    g[..at] + data + (if |g| < at + |data| then [] else g[at + |data|..])
  }

  function ChunkLo(s: Copy, i: nat): nat {
    Lo(s.offset, i)
  }

  function ChunkHi(s: Copy, i: nat): nat {
    Hi(s.offset, |s.src|, i)
  }

  predicate At(s: Copy, i: nat, c: Chunk) {
    i < |s.chunks| && s.chunks[i] == c
  }

  predicate Enabled(s: Copy, a: Action) {
    && a.i < |s.chunks|
    && var c := s.chunks[a.i];
       var lo, hi := ChunkLo(s, a.i), ChunkHi(s, a.i);
       match a
       case Start(_) => c.Fresh?
       case Pread(_, n) => c.Reading? && 1 <= n && lo + |c.got| + n <= hi
       case ReadFails(_) => c.Reading? && lo + |c.got| < hi
       case ReadDone(_) => c.Reading? && lo + |c.got| == hi
       case Pwrite(_, n) => c.Writing? && 1 <= n && c.written + n <= |c.buf|
       case WriteFails(_) => c.Writing? && c.written < |c.buf|
       case WriteDone(_) => c.Writing? && c.written == |c.buf|
       case Interrupted(_) => c.Reading? || c.Writing?
       case FetchAdd(_) => c.Written?
       case Save(_) => c.Counted?
       case StoreError(_) => c.Failing?
  }

  function Goto(s: Copy, i: nat, c: Chunk): Copy
    requires i < |s.chunks|
  {
    s.(chunks := s.chunks[i := c])
  }

  function Step(s: Copy, a: Action): Copy
    requires Enabled(s, a)
  {
    var c := s.chunks[a.i];
    var lo, hi := ChunkLo(s, a.i), ChunkHi(s, a.i);
    match a
    case Start(i) => Goto(s, i, if s.hasError then Failed(false) else Reading([]))
    case Pread(i, n) => Goto(s, i, Reading(c.got + s.src[lo + |c.got|..lo + |c.got| + n]))
    case ReadFails(i) => Goto(s, i, Failing)
    case ReadDone(i) => Goto(s, i, Writing(c.got, 0))
    case Pwrite(i, n) =>
      Goto(s, i, Writing(c.buf, c.written + n))
      .(dest := WriteAt(s.dest, lo + c.written, c.buf[c.written..c.written + n]))
    case WriteFails(i) => Goto(s, i, Failing)
    case WriteDone(i) => Goto(s, i, Written)
    case Interrupted(i) => s
    case FetchAdd(i) =>
      var v := s.transferred + (hi - lo);
      Goto(s, i, Counted(v)).(transferred := v, values := s.values + [v])
    case Save(i) => Goto(s, i, Succeeded(c.value)).(record := Some(c.value))
    case StoreError(i) => Goto(s, i, Failed(true)).(hasError := true)
  }

  /** The destination when the tasks are launched: a fresh one is pre-allocated to the source's size, a
      resumed one is opened as it is. */
  function Launch(src: seq<byte>, old_: seq<byte>, offset: nat): seq<byte> {
    if offset == 0 then Zeros(|src|) else old_
  }

  function Init(src: seq<byte>, old_: seq<byte>, offset: nat): Copy
    requires offset <= |src|
  {
    Copy(src, Launch(src, old_, offset), offset, offset, false, None,
         seq(ChunkCount(offset, |src|), i => Fresh), [])
  }

  // ---------- the chunks tile the file ----------

  /** Each chunk is a nonempty piece of the file that starts where the one before it ends. */
  lemma ChunksInside(offset: nat, size: nat, i: nat)
    requires offset <= size && i < ChunkCount(offset, size)
    ensures offset <= Lo(offset, i) < Hi(offset, size, i) <= size
    ensures i + 1 < ChunkCount(offset, size) ==> Hi(offset, size, i) == Lo(offset, i + 1)
    ensures Lo(offset, i) == offset + 4_194_304 * i && Hi(offset, size, i) <= Lo(offset, i) + 4_194_304
  {
    var q := (size - offset + CHUNK - 1) / CHUNK;
    assert WrapInt32(q) <= q;
  }

  /** The chunk that would hold position p. */
  function ChunkOf(offset: nat, p: nat): nat
    requires offset <= p
  {
    (p - offset) / CHUNK
  }

  lemma ChunkOfHolds(offset: nat, size: nat, p: nat)
    requires offset <= p < size
    ensures Lo(offset, ChunkOf(offset, p)) <= p < Hi(offset, size, ChunkOf(offset, p))
  {
  }

  /** Every position is in some chunk, for every position from the offset on, exactly when the number of
      chunks fits in an int: for a longer rest of the file the narrowing loses chunks. */
  lemma ChunksCoverIffCountFits(offset: nat, size: nat)
    requires offset <= size
    ensures
      (forall p: nat :: offset <= p < size ==> ChunkOf(offset, p) < ChunkCount(offset, size))
      <==> size - offset <= 0x7FFF_FFFF * CHUNK
  {
    var q := (size - offset + CHUNK - 1) / CHUNK;
    if size - offset <= 0x7FFF_FFFF * CHUNK {
      forall p: nat | offset <= p < size
        ensures ChunkOf(offset, p) < ChunkCount(offset, size)
      {
      }
    } else {
      assert ChunkCount(offset, size) < q;
      var p: nat := size - 1;
      assert ChunkOf(offset, p) == q - 1;
    }
  }

  /** For a rest of 2^31 chunks and more, up to 2^32, the count is negative and there is no chunk at all. */
  lemma NoChunksWhenCountIsNegative(offset: nat, size: nat)
    requires 0x7FFF_FFFF * 4_194_304 < size - offset <= 0xFFFF_FFFF * 4_194_304
    ensures ChunkCount(offset, size) == 0
  {
  }

  // ---------- the invariant ----------

  /** dest agrees with src on the positions from a up to b. */
  ghost predicate Holds(dest: seq<byte>, src: seq<byte>, a: nat, b: nat) {
    a < b ==> b <= |dest| && b <= |src| && forall p :: a <= p < b ==> dest[p] == src[p]
  }

  /** What the task of a chunk from lo to hi has achieved, by where it stands. */
  ghost predicate Achieved(src: seq<byte>, dest: seq<byte>, lo: nat, hi: nat, c: Chunk)
    requires lo < hi <= |src|
  {
    match c
    case Reading(got) => lo + |got| <= hi && got == src[lo..lo + |got|]
    case Writing(buf, written) => buf == src[lo..hi] && written <= |buf| && Holds(dest, src, lo, lo + written)
    case Written => Holds(dest, src, lo, hi)
    case Counted(_) => Holds(dest, src, lo, hi)
    case Succeeded(_) => Holds(dest, src, lo, hi)
    case _ => true
  }

  ghost predicate ChunkInv(s: Copy, i: nat) {
    && i < |s.chunks| && ChunkLo(s, i) < ChunkHi(s, i) <= |s.src|
    && Achieved(s.src, s.dest, ChunkLo(s, i), ChunkHi(s, i), s.chunks[i])
  }

  ghost predicate Shape(s: Copy) {
    s.offset <= |s.src| && |s.chunks| == ChunkCount(s.offset, |s.src|)
  }

  ghost predicate DataInv(s: Copy) {
    && Shape(s)
    && forall i: nat :: i < |s.chunks| ==> ChunkInv(s, i)
  }

  /** Positions outside the copied range keep what the destination had. */
  ghost predicate OutsideInv(s: Copy, start: seq<byte>) {
    && |start| <= |s.dest|
    && (|s.dest| <= |start| || |s.dest| <= |s.src|)
    && forall p :: 0 <= p < |start| && (p < s.offset || p >= |s.src|) ==> s.dest[p] == start[p]
  }

  ghost predicate ErrorInv(s: Copy) {
    && (s.hasError <==> exists i :: 0 <= i < |s.chunks| && s.chunks[i] == Failed(true))
    && (forall i :: 0 <= i < |s.chunks| && s.chunks[i] == Failed(false) ==> s.hasError)
  }

  predicate IsCounted(c: Chunk) {
    c.Counted? || c.Succeeded?
  }

  /** The bytes of the counted chunks from number i on. */
  function CountedFrom(s: Copy, i: nat): int
    decreases |s.chunks| - i
  {
    if i >= |s.chunks| then 0
    else (if IsCounted(s.chunks[i]) then ChunkHi(s, i) - ChunkLo(s, i) else 0) + CountedFrom(s, i + 1)
  }

  ghost predicate ValuesInv(s: Copy) {
    && s.transferred == s.offset + CountedFrom(s, 0)
    && (forall j, k :: 0 <= j < k < |s.values| ==> s.values[j] < s.values[k])
    && (forall j :: 0 <= j < |s.values| ==> s.offset < s.values[j] <= s.transferred)
    && s.transferred == (if s.values == [] then s.offset else s.values[|s.values| - 1])
  }

  // ---------- every step keeps it ----------

  lemma ChunksDisjoint(s: Copy, i: nat, j: nat)
    requires Shape(s) && i < |s.chunks| && j < |s.chunks| && i != j
    ensures ChunkHi(s, i) <= ChunkLo(s, j) || ChunkHi(s, j) <= ChunkLo(s, i)
  {
    ChunksInside(s.offset, |s.src|, i);
    ChunksInside(s.offset, |s.src|, j);
  }

  /** A write elsewhere leaves what is held. */
  lemma WriteKeeps(dest: seq<byte>, src: seq<byte>, at: nat, data: seq<byte>, a: nat, b: nat)
    requires Holds(dest, src, a, b) && (at + |data| <= a || b <= at)
    ensures Holds(WriteAt(dest, at, data), src, a, b)
  {
    var dest' := WriteAt(dest, at, data);
    assert forall p :: a <= p < b ==> dest'[p] == dest[p];
  }

  /** A write of the source's own bytes extends what is held. */
  lemma WriteExtends(dest: seq<byte>, src: seq<byte>, lo: nat, k: nat, m: nat)
    requires k <= m && lo + m <= |src| && Holds(dest, src, lo, lo + k)
    ensures Holds(WriteAt(dest, lo + k, src[lo + k..lo + m]), src, lo, lo + m)
  {
    var data := src[lo + k..lo + m];
    var dest' := WriteAt(dest, lo + k, data);
    assert forall p :: lo <= p < lo + k ==> dest'[p] == dest[p];
    assert forall p :: lo + k <= p < lo + m ==> dest'[p] == data[p - (lo + k)] == src[p];
  }

  lemma OwnPread(s: Copy, i: nat, n: nat)
    requires ChunkInv(s, i) && Enabled(s, Pread(i, n))
    ensures ChunkInv(Step(s, Pread(i, n)), i)
  {
    var lo, got := ChunkLo(s, i), s.chunks[i].got;
    assert got + s.src[lo + |got|..lo + |got| + n] == s.src[lo..lo + |got| + n];
  }

  lemma SliceOfSlice(src: seq<byte>, lo: nat, hi: nat, a: nat, b: nat)
    requires a <= b && lo + b <= hi <= |src|
    ensures src[lo..hi][a..b] == src[lo + a..lo + b]
  {
    var x, y := src[lo..hi][a..b], src[lo + a..lo + b];
    forall k | 0 <= k < |x|
      ensures x[k] == y[k]
    {
      assert x[k] == src[lo..hi][a + k];
    }
  }

  lemma AchievedOwnWrite(src: seq<byte>, dest: seq<byte>, lo: nat, hi: nat, c: Chunk, n: nat)
    requires lo < hi <= |src| && c.Writing? && c.written + n <= |c.buf| && Achieved(src, dest, lo, hi, c)
    ensures Achieved(src, WriteAt(dest, lo + c.written, c.buf[c.written..c.written + n]),
                     lo, hi, Writing(c.buf, c.written + n))
  {
    var m := c.written + n;
    var data := c.buf[c.written..m];
    assert data == src[lo + c.written..lo + m] by {
      SliceOfSlice(src, lo, hi, c.written, m);
    }
    assert Holds(WriteAt(dest, lo + c.written, data), src, lo, lo + m) by {
      WriteExtends(dest, src, lo, c.written, m);
    }
  }

  lemma AchievedOtherWrite(src: seq<byte>, dest: seq<byte>, lo: nat, hi: nat, c: Chunk, at: nat, data: seq<byte>)
    requires lo < hi <= |src| && Achieved(src, dest, lo, hi, c) && (at + |data| <= lo || hi <= at)
    ensures Achieved(src, WriteAt(dest, at, data), lo, hi, c)
  {
    if c.Writing? {
      WriteKeeps(dest, src, at, data, lo, lo + c.written);
    } else if c.Written? || IsCounted(c) {
      WriteKeeps(dest, src, at, data, lo, hi);
    }
  }

  lemma OwnChunk(s: Copy, a: Action)
    requires ChunkInv(s, a.i) && Enabled(s, a)
    ensures ChunkInv(Step(s, a), a.i)
  {
    if a.Pread? {
      OwnPread(s, a.i, a.n);
    } else if a.Pwrite? {
      OwnPwrite(s, a.i, a.n);
    }
  }

  lemma OwnPwrite(s: Copy, i: nat, n: nat)
    requires ChunkInv(s, i) && Enabled(s, Pwrite(i, n))
    ensures ChunkInv(Step(s, Pwrite(i, n)), i)
  {
    AchievedOwnWrite(s.src, s.dest, ChunkLo(s, i), ChunkHi(s, i), s.chunks[i], n);
  }

  lemma OtherPwrite(s: Copy, i: nat, n: nat, j: nat)
    requires Shape(s) && ChunkInv(s, i) && ChunkInv(s, j) && Enabled(s, Pwrite(i, n)) && j != i
    ensures ChunkInv(Step(s, Pwrite(i, n)), j)
  {
    var c := s.chunks[i];
    var at := ChunkLo(s, i) + c.written;
    var data := c.buf[c.written..c.written + n];
    ChunksDisjoint(s, i, j);
    assert at + |data| <= ChunkHi(s, i);
    AchievedOtherWrite(s.src, s.dest, ChunkLo(s, j), ChunkHi(s, j), s.chunks[j], at, data);
    var s' := Step(s, Pwrite(i, n));
    assert s'.dest == WriteAt(s.dest, at, data) && s'.src == s.src && s'.chunks[j] == s.chunks[j];
  }

  lemma OtherChunk(s: Copy, a: Action, j: nat)
    requires Shape(s) && ChunkInv(s, a.i) && ChunkInv(s, j) && Enabled(s, a) && j != a.i
    ensures ChunkInv(Step(s, a), j)
  {
    if a.Pwrite? {
      OtherPwrite(s, a.i, a.n, j);
    } else {
      var s' := Step(s, a);
      assert s'.dest == s.dest && s'.src == s.src && s'.chunks[j] == s.chunks[j];
    }
  }

  lemma DataStep(s: Copy, a: Action)
    requires DataInv(s) && Enabled(s, a)
    ensures DataInv(Step(s, a))
  {
    forall j: nat | j < |s.chunks|
      ensures ChunkInv(Step(s, a), j)
    {
      if j == a.i {
        OwnChunk(s, a);
      } else {
        OtherChunk(s, a, j);
      }
    }
  }

  lemma OutsidePwrite(s: Copy, i: nat, n: nat, start: seq<byte>)
    requires Shape(s) && ChunkInv(s, i) && OutsideInv(s, start) && Enabled(s, Pwrite(i, n))
    ensures OutsideInv(Step(s, Pwrite(i, n)), start)
  {
    ChunksInside(s.offset, |s.src|, i);
    var c := s.chunks[i];
    var at := ChunkLo(s, i) + c.written;
    var data := c.buf[c.written..c.written + n];
    var dest' := WriteAt(s.dest, at, data);
    assert s.offset <= at && at + |data| <= |s.src|;
    forall p | 0 <= p < |start| && (p < s.offset || p >= |s.src|)
      ensures dest'[p] == start[p]
    {
      WriteElsewhere(s.dest, at, data, p);
    }
  }

  lemma WriteElsewhere(dest: seq<byte>, at: nat, data: seq<byte>, p: nat)
    requires p < |dest| && (p < at || at + |data| <= p)
    ensures p < |WriteAt(dest, at, data)| && WriteAt(dest, at, data)[p] == dest[p]
  {
  }

  lemma OutsideStep(s: Copy, a: Action, start: seq<byte>)
    requires DataInv(s) && OutsideInv(s, start) && Enabled(s, a)
    ensures OutsideInv(Step(s, a), start)
  {
    if a.Pwrite? {
      OutsidePwrite(s, a.i, a.n, start);
    }
  }

  lemma ErrorStep(s: Copy, a: Action)
    requires ErrorInv(s) && Enabled(s, a)
    ensures ErrorInv(Step(s, a))
  {
    var s' := Step(s, a);
    assert forall j :: 0 <= j < |s.chunks| && j != a.i ==> s'.chunks[j] == s.chunks[j];
    if s.hasError {
      var i :| 0 <= i < |s.chunks| && s.chunks[i] == Failed(true);
      assert s'.chunks[i] == Failed(true);
    } else if a.StoreError? {
      assert s'.chunks[a.i] == Failed(true);
    }
  }

  lemma {:induction false} CountedSame(s: Copy, s': Copy, i: nat)
    requires s'.src == s.src && s'.offset == s.offset && |s'.chunks| == |s.chunks|
    requires forall j :: i <= j < |s.chunks| ==> IsCounted(s'.chunks[j]) == IsCounted(s.chunks[j])
    ensures CountedFrom(s', i) == CountedFrom(s, i)
    decreases |s.chunks| - i
  {
    if i < |s.chunks| {
      CountedSame(s, s', i + 1);
    }
  }

  lemma {:induction false} CountedOneMore(s: Copy, s': Copy, i: nat, k: nat)
    requires s'.src == s.src && s'.offset == s.offset && |s'.chunks| == |s.chunks| && i <= k < |s.chunks|
    requires forall j :: i <= j < |s.chunks| && j != k ==> IsCounted(s'.chunks[j]) == IsCounted(s.chunks[j])
    requires !IsCounted(s.chunks[k]) && IsCounted(s'.chunks[k])
    ensures CountedFrom(s', i) == CountedFrom(s, i) + (ChunkHi(s, k) - ChunkLo(s, k))
    decreases |s.chunks| - i
  {
    if i < k {
      CountedOneMore(s, s', i + 1, k);
    } else {
      CountedSame(s, s', i + 1);
    }
  }

  lemma ValuesFetchAdd(s: Copy, i: nat)
    requires Shape(s) && ValuesInv(s) && Enabled(s, FetchAdd(i))
    ensures ValuesInv(Step(s, FetchAdd(i)))
  {
    var s' := Step(s, FetchAdd(i));
    ChunksInside(s.offset, |s.src|, i);
    assert forall j :: 0 <= j < |s.chunks| && j != i ==> s'.chunks[j] == s.chunks[j];
    CountedOneMore(s, s', 0, i);
    assert forall j :: 0 <= j < |s.values| ==> s'.values[j] == s.values[j];
  }

  lemma ValuesStep(s: Copy, a: Action)
    requires Shape(s) && ValuesInv(s) && Enabled(s, a)
    ensures ValuesInv(Step(s, a))
  {
    if a.FetchAdd? {
      ValuesFetchAdd(s, a.i);
    } else {
      var s' := Step(s, a);
      assert forall j :: 0 <= j < |s.chunks| && j != a.i ==> s'.chunks[j] == s.chunks[j];
      CountedSame(s, s', 0);
    }
  }

  /** The counted bytes stay within the file, and reach its end only when every chunk is counted. */
  lemma {:induction false} CountedBound(s: Copy, i: nat)
    requires Shape(s) && i <= |s.chunks|
    ensures CountedFrom(s, i) <= (if i < |s.chunks| then |s.src| - ChunkLo(s, i) else 0)
    ensures (forall j :: i <= j < |s.chunks| ==> IsCounted(s.chunks[j])) ==>
      CountedFrom(s, i) == (if i < |s.chunks| then ChunkHi(s, |s.chunks| - 1) - ChunkLo(s, i) else 0)
    decreases |s.chunks| - i
  {
    if i < |s.chunks| {
      ChunksInside(s.offset, |s.src|, i);
      CountedBound(s, i + 1);
    }
  }

  // ---------- runs ----------

  ghost predicate Inv(s: Copy, start: seq<byte>) {
    DataInv(s) && OutsideInv(s, start) && ErrorInv(s) && ValuesInv(s)
  }

  lemma InitInv(src: seq<byte>, old_: seq<byte>, offset: nat)
    requires offset <= |src|
    ensures Inv(Init(src, old_, offset), Launch(src, old_, offset))
  {
    var s := Init(src, old_, offset);
    forall i: nat | i < |s.chunks|
      ensures ChunkInv(s, i)
    {
      ChunksInside(offset, |src|, i);
    }
    NothingCounted(s, 0);
  }

  lemma {:induction false} NothingCounted(s: Copy, i: nat)
    requires forall j :: i <= j < |s.chunks| ==> !IsCounted(s.chunks[j])
    ensures CountedFrom(s, i) == 0
    decreases |s.chunks| - i
  {
    if i < |s.chunks| {
      NothingCounted(s, i + 1);
    }
  }

  lemma StepKeepsInv(s: Copy, a: Action, start: seq<byte>)
    requires Inv(s, start) && Enabled(s, a)
    ensures Inv(Step(s, a), start)
  {
    DataStep(s, a);
    OutsideStep(s, a, start);
    ErrorStep(s, a);
    ValuesStep(s, a);
  }

  predicate Possible(s: Copy, run: seq<Action>)
    decreases |run|
  {
    run == [] || (Enabled(s, run[0]) && Possible(Step(s, run[0]), run[1..]))
  }

  function RunFrom(s: Copy, run: seq<Action>): (r: Copy)
    requires Possible(s, run)
    ensures r.src == s.src && r.offset == s.offset && |r.chunks| == |s.chunks|
    decreases |run|
  {
    if run == [] then s else RunFrom(Step(s, run[0]), run[1..])
  }

  lemma {:induction false} RunKeepsInv(s: Copy, run: seq<Action>, start: seq<byte>)
    requires Inv(s, start) && Possible(s, run)
    ensures Inv(RunFrom(s, run), start)
    decreases |run|
  {
    if run != [] {
      StepKeepsInv(s, run[0], start);
      RunKeepsInv(Step(s, run[0]), run[1..], start);
    }
  }

  /** Every future has been collected. */
  predicate AllReturned(s: Copy) {
    forall i :: 0 <= i < |s.chunks| ==> s.chunks[i].Succeeded? || s.chunks[i].Failed?
  }

  /** allSuccess: every future returned true. */
  predicate AllSucceeded(s: Copy) {
    forall i :: 0 <= i < |s.chunks| ==> s.chunks[i].Succeeded?
  }

  /** The run ends with every future collected. */
  ghost predicate Completes(src: seq<byte>, old_: seq<byte>, offset: nat, run: seq<Action>, s: Copy)
    requires offset <= |src|
  {
    Possible(Init(src, old_, offset), run) && s == RunFrom(Init(src, old_, offset), run) && AllReturned(s)
  }

  /** Success is reported exactly when no task failed by itself, whatever the interleaving. */
  lemma SuccessIffNoChunkFailed(src: seq<byte>, old_: seq<byte>, offset: nat, run: seq<Action>, s: Copy)
    requires offset <= |src| && Completes(src, old_, offset, run, s)
    ensures AllSucceeded(s) <==> forall i :: 0 <= i < |s.chunks| ==> s.chunks[i] != Failed(true)
    ensures AllSucceeded(s) <==> !s.hasError
  {
    InitInv(src, old_, offset);
    RunKeepsInv(Init(src, old_, offset), run, Launch(src, old_, offset));
    if !AllSucceeded(s) {
      var i :| 0 <= i < |s.chunks| && !s.chunks[i].Succeeded?;
      assert s.chunks[i] == Failed(true) || s.chunks[i] == Failed(false);
      assert s.hasError;
    }
  }

  /** Every successful run, whatever the interleaving, the short transfers and the interruptions, leaves
      the source's bytes from the offset on and touches nothing else. */
  lemma SuccessCopiesRange(src: seq<byte>, old_: seq<byte>, offset: nat, run: seq<Action>, s: Copy)
    requires offset <= |src| && Completes(src, old_, offset, run, s) && AllSucceeded(s)
    requires |src| - offset <= 0x7FFF_FFFF * CHUNK
    ensures offset < |src| ==> |s.dest| >= |src| && s.dest[offset..|src|] == src[offset..]
    ensures forall p :: 0 <= p < |old_| && 0 < offset && (p < offset || p >= |src|) ==>
            p < |s.dest| && s.dest[p] == old_[p]
    ensures 0 < offset < |src| ==> |s.dest| == if |old_| >= |src| then |old_| else |src|
    ensures offset == 0 ==> s.dest == src
  {
    var start := Launch(src, old_, offset);
    InitInv(src, old_, offset);
    RunKeepsInv(Init(src, old_, offset), run, start);
    forall p: nat | offset <= p < |src|
      ensures p < |s.dest| && s.dest[p] == src[p]
    {
      CopiedAt(s, p);
    }
    if offset < |src| {
      CopiedAt(s, |src| - 1);
      assert s.dest[offset..|src|] == src[offset..];
    }
  }

  /** Without a chunk no step is possible. */
  lemma NothingToRun(src: seq<byte>, old_: seq<byte>, run: seq<Action>)
    requires Possible(Init(src, old_, |src|), run)
    ensures RunFrom(Init(src, old_, |src|), run) == Init(src, old_, |src|)
  {
    assert ChunkCount(|src|, |src|) == 0;
  }

  /** What the block-wise copy leaves when nothing goes wrong. */
  function SequentialResult(src: seq<byte>, old_: seq<byte>, offset: nat): seq<byte> {
    Seq.Transferred(src, Seq.Disk(Some(old_), None), offset, Seq.Finishes).disk.dest.value
  }

  lemma SequentialAppends(src: seq<byte>, old_: seq<byte>, offset: nat)
    requires offset <= |src|
    ensures SequentialResult(src, old_, offset) == (if offset == 0 then [] else old_) + src[offset..]
  {
    var d := Seq.Disk(Some(old_), None);
    Seq.CopyBlocksResult(src, Seq.Opened(d, offset), offset, Seq.Finishes);
  }

  /** The parallel copy refines the block-wise one: a successful run, under any interleaving, leaves the
      file that transferFile leaves, if and only if the copy starts over, or there is nothing to copy, or
      the destination ends where the copy resumes. Otherwise transferFile appends where the parallel copy
      writes in place. */
  lemma ParallelRefinesSequential(src: seq<byte>, old_: seq<byte>, offset: nat, run: seq<Action>, s: Copy)
    requires offset <= |src| && Completes(src, old_, offset, run, s) && AllSucceeded(s)
    requires |src| - offset <= 0x7FFF_FFFF * CHUNK
    ensures s.dest == SequentialResult(src, old_, offset) <==> offset == 0 || offset == |src| || |old_| == offset
  {
    SuccessCopiesRange(src, old_, offset, run, s);
    SequentialAppends(src, old_, offset);
    if offset == 0 {
      assert [] + src[0..] == src;
    } else if offset == |src| {
      NothingToRun(src, old_, run);
      assert old_ + src[offset..] == old_;
    } else if |old_| == offset {
      assert s.dest == s.dest[..offset] + s.dest[offset..];
      assert s.dest[..offset] == old_;
    } else {
      assert |SequentialResult(src, old_, offset)| != |s.dest|;
    }
  }

  lemma CopiedAt(s: Copy, p: nat)
    requires DataInv(s) && AllSucceeded(s) && s.offset <= p < |s.src|
    requires |s.src| - s.offset <= 0x7FFF_FFFF * CHUNK
    ensures p < |s.dest| && s.dest[p] == s.src[p]
  {
    ChunksCoverIffCountFits(s.offset, |s.src|);
    var i := ChunkOf(s.offset, p);
    ChunkOfHolds(s.offset, |s.src|, p);
    assert ChunkInv(s, i);
    assert s.chunks[i].Succeeded?;
  }

  /** The values taken from the shared counter: strictly increasing, so pairwise distinct, above the
      offset and at most the file size, at every point of every run. */
  lemma CounterValuesDistinct(src: seq<byte>, old_: seq<byte>, offset: nat, run: seq<Action>)
    requires offset <= |src| && Possible(Init(src, old_, offset), run)
    ensures
      var s := RunFrom(Init(src, old_, offset), run);
      && (forall j, k :: 0 <= j < k < |s.values| ==> s.values[j] < s.values[k])
      && (forall j :: 0 <= j < |s.values| ==> offset < s.values[j] <= |src|)
  {
    InitInv(src, old_, offset);
    RunKeepsInv(Init(src, old_, offset), run, Launch(src, old_, offset));
    var s := RunFrom(Init(src, old_, offset), run);
    CountedBound(s, 0);
  }

  predicate OnlyAt(values: seq<int>, v: int, k: int) {
    forall j :: 0 <= j < |values| && values[j] == v ==> j == k
  }

  /** In a fully successful run with something to copy, exactly one of them is the file size. */
  lemma ExactlyOneValueIsTheSize(src: seq<byte>, old_: seq<byte>, offset: nat, run: seq<Action>, s: Copy)
    requires offset < |src| && Completes(src, old_, offset, run, s) && AllSucceeded(s)
    requires |src| - offset <= 0x7FFF_FFFF * CHUNK
    ensures exists k :: 0 <= k < |s.values| && s.values[k] == |src| && OnlyAt(s.values, |src|, k)
  {
    InitInv(src, old_, offset);
    RunKeepsInv(Init(src, old_, offset), run, Launch(src, old_, offset));
    SucceededTotal(s);
    assert s.values[|s.values| - 1] == |src|;
  }

  lemma LastChunkEndsFile(offset: nat, size: nat)
    requires offset < size && size - offset <= 0x7FFF_FFFF * CHUNK
    ensures ChunkCount(offset, size) > 0 && Hi(offset, size, ChunkCount(offset, size) - 1) == size
  {
    ChunksCoverIffCountFits(offset, size);
    var p: nat := size - 1;
    assert ChunkOf(offset, p) < ChunkCount(offset, size);
    ChunkOfHolds(offset, size, p);
    ChunksInside(offset, size, ChunkCount(offset, size) - 1);
  }

  lemma SucceededTotal(s: Copy)
    requires Shape(s) && ValuesInv(s) && AllSucceeded(s)
    requires s.offset < |s.src| && |s.src| - s.offset <= 0x7FFF_FFFF * CHUNK
    ensures s.transferred == |s.src|
  {
    CountedBound(s, 0);
    LastChunkEndsFile(s.offset, |s.src|);
  }
}
