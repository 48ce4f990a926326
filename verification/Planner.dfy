/** The local engine: which tasks the planner emits for two trees, what executing a task does to the
    file system, and why the order in which the pool runs the tasks does not matter. */
module Planner {
  import opened Bytes
  import opened Results
  import opened FileTree
  import opened ProgressRecord
  import opened Conflict
  import Seq = SequentialCopy
  import Par = ParallelCopy
  import Copy = FileCopy

  const PROGRESS_SUFFIX: seq<byte> := Text(".sync_progress")
  const BACKUP_SUFFIX: seq<byte> := Text(".bak")

  datatype Meta = Meta(regular: bool, directory: bool, size: int, mtime: int, mode: nat, md5: seq<byte>)

  datatype Task = Task(src: Path, dest: Path, isDir: bool, mode: nat)

  // ---------- planning ----------

  predicate NeedSync(s: Meta, d: Meta) {
    if s.regular != d.regular then true
    else if s.size != d.size || s.mtime != d.mtime then true
    else s.regular && s.md5 != d.md5
  }

  /** The destination of a source path: the part after srcDir, put behind destDir. */
  function Image(srcDir: Path, destDir: Path, p: Path): Path
    requires |srcDir| <= |p|
  {
    destDir + p[|srcDir|..]
  }

  predicate Wanted(src: map<Path, Meta>, dest: map<Path, Meta>, srcDir: Path, destDir: Path, p: Path)
    requires p in src && |srcDir| <= |p|
  {
    var q := Image(srcDir, destDir, p);
    q !in dest || NeedSync(src[p], dest[q])
  }

  function TaskFor(src: map<Path, Meta>, srcDir: Path, destDir: Path, p: Path): Task
    requires p in src && |srcDir| <= |p|
  {
    Task(p, Image(srcDir, destDir, p), src[p].directory, src[p].mode)
  }

  /** The tasks that are due, as a set: the source iterates over a hash map, in no particular order. */
  function DueTasks(src: map<Path, Meta>, dest: map<Path, Meta>, srcDir: Path, destDir: Path): set<Task>
    requires forall p :: p in src ==> srcDir <= p
  {
    set p | p in src && Wanted(src, dest, srcDir, destDir, p) :: TaskFor(src, srcDir, destDir, p)
  }

  method CompareMetadata(src: map<Path, Meta>, dest: map<Path, Meta>, srcDir: Path, destDir: Path)
    returns (tasks: seq<Task>)
    requires forall p :: p in src ==> srcDir <= p
    ensures (set t | t in tasks) == DueTasks(src, dest, srcDir, destDir)
    ensures forall i, j :: 0 <= i < j < |tasks| ==> tasks[i].dest != tasks[j].dest
  {
    tasks := [];
    var left := src.Keys;
    while left != {}
      invariant left <= src.Keys
      invariant forall t :: t in tasks <==>
        exists p :: p in src.Keys - left && Wanted(src, dest, srcDir, destDir, p) &&
          t == TaskFor(src, srcDir, destDir, p)
      invariant forall t :: t in tasks ==> t.src in src.Keys - left && t.dest == Image(srcDir, destDir, t.src)
      invariant forall i, j :: 0 <= i < j < |tasks| ==> tasks[i].dest != tasks[j].dest
      decreases |left|
    {
      var p :| p in left;
      if Wanted(src, dest, srcDir, destDir, p) {
        forall i | 0 <= i < |tasks|
          ensures tasks[i].dest != Image(srcDir, destDir, p)
        {
          assert tasks[i] in tasks;
          ImageInjective(srcDir, destDir, tasks[i].src, p);
        }
        tasks := tasks + [TaskFor(src, srcDir, destDir, p)];
      }
      left := left - {p};
    }
  }

  lemma ImageInjective(srcDir: Path, destDir: Path, p: Path, q: Path)
    requires srcDir <= p && srcDir <= q && p != q
    ensures Image(srcDir, destDir, p) != Image(srcDir, destDir, q)
  {
    assert p == srcDir + p[|srcDir|..] && q == srcDir + q[|srcDir|..];
    assert Image(srcDir, destDir, p)[|destDir|..] == p[|srcDir|..];
    assert Image(srcDir, destDir, q)[|destDir|..] == q[|srcDir|..];
  }

  /** Nothing to do: both regular files or both not, of one size and modification time, and, if they are
      regular files, of one digest. Modes do not matter, nor does the digest of anything else. */
  predicate Alike(s: Meta, d: Meta) {
    && (s.regular <==> d.regular) && s.size == d.size && s.mtime == d.mtime
    && (s.regular ==> s.md5 == d.md5)
  }

  /** A source path has a task if and only if its image is missing or not alike, and then exactly one, from it
      to its image; no other task is planned. */
  lemma TaskIff(src: map<Path, Meta>, dest: map<Path, Meta>, srcDir: Path, destDir: Path, k: Task)
    requires forall p :: p in src ==> srcDir <= p
    ensures
      k in DueTasks(src, dest, srcDir, destDir) <==>
      && k.src in src
      && k == Task(k.src, destDir + k.src[|srcDir|..], src[k.src].directory, src[k.src].mode)
      && (k.dest in dest ==> !Alike(src[k.src], dest[k.dest]))
  {
  }

  /** The plan is empty if and only if every source path has an image that is alike. In particular it is for two
      trees whose images carry equal metadata. */
  lemma EmptyPlanIff(src: map<Path, Meta>, dest: map<Path, Meta>, srcDir: Path, destDir: Path)
    requires forall p :: p in src ==> srcDir <= p
    ensures
      DueTasks(src, dest, srcDir, destDir) == {} <==>
      forall p :: p in src ==> destDir + p[|srcDir|..] in dest && Alike(src[p], dest[destDir + p[|srcDir|..]])
  {
    var ks := DueTasks(src, dest, srcDir, destDir);
    forall p | p in src
      ensures TaskFor(src, srcDir, destDir, p) in ks <==>
              !(destDir + p[|srcDir|..] in dest && Alike(src[p], dest[destDir + p[|srcDir|..]]))
    {
      TaskIff(src, dest, srcDir, destDir, TaskFor(src, srcDir, destDir, p));
    }
    forall k | k in ks
      ensures k.src in src && k == TaskFor(src, srcDir, destDir, k.src)
    {
    }
  }

  // ---------- executing ----------

  function ProgressPath(p: Path): Path {
    p + PROGRESS_SUFFIX
  }

  function ProgressAt(t: Tree, p: Path): Record {
    if IsFile(t, ProgressPath(p)) then Loaded(t[ProgressPath(p)].data, p) else Record(0, 0)
  }

  /** The bytes in the destination after an undisturbed call of syncFile: resumed behind the old bytes if
      there is progress, those that every successful parallel copy leaves if the file is large, copied
      block by block otherwise. */
  function CopiedBytes(src: seq<byte>, old_: Option<seq<byte>>, progress: Record, pooled: bool): seq<byte> {
    if HasProgress(progress) then
      Seq.Transferred(src, Seq.Disk(old_, Some(progress)), progress.offset, Seq.Finishes).disk.dest.value
    else if Copy.InParallel(src, pooled) then src
    else Seq.Transferred(src, Seq.Disk(old_, None), 0, Seq.Finishes).disk.dest.value
  }

  lemma CopiedBytesAreCopyFiles(src: seq<byte>, path: Path, d: Seq.Disk, pooled: bool, e: Copy.Fates)
    requires Copy.Undisturbed(e) && Copy.Collected(src, e.parallel) && Par.AllSucceeded(e.parallel)
    requires |src| <= 0x7FFF_FFFF * Par.CHUNK
    ensures Copy.CopyFile(src, path, d, pooled, e) ==
            Seq.Transfer(Seq.Returned(true),
                         Seq.Disk(Some(CopiedBytes(src, d.dest, LoadProgress(path, d.record), pooled)), None))
  {
    Copy.CollectedIsSource(src, e.parallel);
    var progress := LoadProgress(path, d.record);
    Seq.CopyBlocksResult(src, Seq.Opened(d, progress.offset), progress.offset, Seq.Finishes);
    Seq.CopyBlocksResult(src, Seq.Opened(Seq.Disk(d.dest, Some(progress)), progress.offset), progress.offset,
      Seq.Finishes);
    Seq.CopyBlocksResult(src, Seq.Opened(d, 0), 0, Seq.Finishes);
    Seq.CopyBlocksResult(src, Seq.Opened(Seq.Disk(d.dest, None), 0), 0, Seq.Finishes);
  }

  function HandleConflict(t: Tree, dest: Path, strategy: Strategy): Made
    requires dest in t
  {
    match strategy
    case Overwrite => Made(t, true)
    case Skip => Made(t, false)
    case Rename =>
      var backup := dest + BACKUP_SUFFIX;
      if backup in t && t[backup].Dir? then Made(t, false) else Made((t - {dest})[backup := t[dest]], true)
  }

  function SyncFile(t: Tree, k: Task, strategy: Strategy, pooled: bool): Made {
    if !IsFile(t, k.src) then Made(t, false)
    else
      var m := CreateDirectory(t, Parent(k.dest), DEFAULT_DIR_MODE);
      if !m.ok then m
      else
        var c := if k.dest in m.tree then HandleConflict(m.tree, k.dest, strategy) else m;
        if c.ok then CopyTask(c.tree, k, pooled) else c
  }

  /** std::remove: a file, or a directory in which there is nothing. */
  function Remove(t: Tree, p: Path): Tree {
    if IsFile(t, p) || IsEmptyDir(t, p) then t - {p} else t
  }

  predicate IsEmptyDir(t: Tree, p: Path) {
    p in t && t[p].Dir? && forall q :: q in t ==> !(p + [SLASH] <= q)
  }

  /** cleanupCorruptedFile. */
  function CleanUp(t: Tree, dest: Path): Tree {
    Remove(Remove(t, dest), ProgressPath(dest))
  }

  /** What is left to do once a conflict is out of the way. A directory at the destination cannot be opened, so
      that the copies fail; the clean-up between a parallel and a plain copy, though, removes an empty one. */
  function CopyTask(t: Tree, k: Task, pooled: bool): Made {
    if !IsFile(t, k.src) || (k.dest !in t && !HasPlace(t, k.dest)) then Made(CleanUp(t, k.dest), false)
    else if k.dest in t && t[k.dest].Dir? then
      if Copy.InParallel(t[k.src].data, pooled) && IsEmptyDir(t, k.dest)
      then Made(CleanUp(t, k.dest)[k.dest := File(t[k.src].data, k.mode)], true)
      else Made(CleanUp(t, k.dest), false)
    else
      var old_ := if k.dest in t then Some(t[k.dest].data) else None;
      var data := CopiedBytes(t[k.src].data, old_, ProgressAt(t, k.dest), pooled);
      Made(t[k.dest := File(data, k.mode)] - {ProgressPath(k.dest)}, true)
  }

  function SyncDirectory(t: Tree, k: Task): Made {
    var m := CreateDirectory(t, k.dest, DEFAULT_DIR_MODE);
    if m.ok && k.dest in m.tree then Made(m.tree[k.dest := m.tree[k.dest].(mode := k.mode)], true)
    else Made(m.tree, false)
  }

  function Execute(t: Tree, k: Task, strategy: Strategy, pooled: bool): Made {
    if k.isDir then SyncDirectory(t, k) else SyncFile(t, k, strategy, pooled)
  }

  /** The tasks in the order in which the pool happens to run them, each as one step. */
  function ExecuteAll(t: Tree, ks: seq<Task>, strategy: Strategy, pooled: bool): Made
    decreases |ks|
  {
    if ks == [] then Made(t, true)
    else
      var m := Execute(t, ks[0], strategy, pooled);
      var r := ExecuteAll(m.tree, ks[1..], strategy, pooled);
      Made(r.tree, m.ok && r.ok)
  }

  // ---------- the conditions under which tasks do not interfere ----------

  /** Where the tasks write: files and directories at different places, no place that is another's
      progress file, no left-over progress file, and sources that are files outside all of them. */
  ghost predicate Separate(t: Tree, ks: set<Task>, files: set<Path>, dirs: set<Path>) {
    && files !! dirs && [] !in files && [] !in t
    && (forall p :: p in files && p in t ==> t[p].File?)
    && (forall p :: p in dirs && p in t ==> t[p].Dir?)
    && (forall a, b :: a in ks && b in ks && a.dest == b.dest ==> a == b)
    && (forall k :: k in ks ==> PlacedTask(t, k, files, dirs))
  }

  ghost predicate PlacedTask(t: Tree, k: Task, files: set<Path>, dirs: set<Path>) {
    if k.isDir then k.dest != [] && Chain(k.dest) <= dirs
    else
      && k.dest in files && Ancestors(k.dest) <= dirs
      && IsFile(t, k.src) && k.src !in files
      && ProgressPath(k.dest) !in t && ProgressPath(k.dest) !in files && ProgressPath(k.dest) !in dirs
  }

  // ---------- the final tree ----------

  /** What belongs at a task's destination. */
  function Result(t: Tree, k: Task): Node
    requires k.isDir || IsFile(t, k.src)
  {
    if k.isDir then Dir(k.mode) else File(t[k.src].data, k.mode)
  }

  ghost function TaskAt(ks: set<Task>, p: Path): Option<Task> {
    if k :| k in ks && k.dest == p then Some(k) else None
  }

  ghost function NodeAt(t: Tree, ks: set<Task>, p: Path): Node
    requires forall k :: k in ks ==> k.isDir || IsFile(t, k.src)
  {
    match TaskAt(ks, p)
    case Some(k) => Result(t, k)
    case None => if p in t then t[p] else Dir(DEFAULT_DIR_MODE)
  }

  function WrittenPaths(ks: set<Task>): set<Path> {
    set k, p | k in ks && p in Chain(k.dest) :: p
  }

  /** The tree after the tasks of ks, said without reference to an order. */
  ghost function Final(t: Tree, ks: set<Task>): Tree
    requires forall k :: k in ks ==> k.isDir || IsFile(t, k.src)
  {
    map p | p in t.Keys + WrittenPaths(ks) :: NodeAt(t, ks, p)
  }

  lemma TaskAtIs(ks: set<Task>, k: Task)
    requires k in ks && forall a, b :: a in ks && b in ks && a.dest == b.dest ==> a == b
    ensures TaskAt(ks, k.dest) == Some(k)
  {
  }

  lemma TaskAtAdded(ks: set<Task>, k: Task, p: Path)
    requires forall a, b :: a in ks + {k} && b in ks + {k} && a.dest == b.dest ==> a == b
    ensures TaskAt(ks + {k}, p) == if p == k.dest then Some(k) else TaskAt(ks, p)
  {
    if p == k.dest {
      TaskAtIs(ks + {k}, k);
    } else if x :| x in ks && x.dest == p {
      TaskAtIs(ks, x);
      TaskAtIs(ks + {k}, x);
    }
  }

  lemma WrittenAdded(ks: set<Task>, k: Task)
    ensures WrittenPaths(ks + {k}) == WrittenPaths(ks) + Chain(k.dest)
  {
  }

  lemma WrittenPlaced(t: Tree, ks: set<Task>, files: set<Path>, dirs: set<Path>)
    requires Separate(t, ks, files, dirs)
    ensures WrittenPaths(ks) <= files + dirs && [] !in WrittenPaths(ks)
  {
    forall p | p in WrittenPaths(ks)
      ensures p in files + dirs && p != []
    {
      var k :| k in ks && p in Chain(k.dest);
      assert PlacedTask(t, k, files, dirs);
    }
  }

  lemma SeparateLess(t: Tree, ks: set<Task>, more: set<Task>, files: set<Path>, dirs: set<Path>)
    requires Separate(t, more, files, dirs) && ks <= more
    ensures Separate(t, ks, files, dirs)
  {
  }

  /** The tree half-way keeps files and directories apart and leaves sources and progress paths alone. */
  lemma FinalFits(t: Tree, ks: set<Task>, files: set<Path>, dirs: set<Path>)
    requires Separate(t, ks, files, dirs)
    ensures
      var u := Final(t, ks);
      && [] !in u
      && (forall p :: p in files && p in u ==> u[p].File?)
      && (forall p :: p in dirs && p in u ==> u[p].Dir?)
      && (forall p :: p !in files && p !in dirs ==> (p in u <==> p in t) && (p in t ==> u[p] == t[p]))
  {
    WrittenPlaced(t, ks, files, dirs);
    forall k | k in ks
      ensures if k.isDir then k.dest in dirs else k.dest in files
    {
      assert PlacedTask(t, k, files, dirs);
      if k.isDir {
        assert k.dest in Chain(k.dest);
      }
    }
    forall p | p in WrittenPaths(ks) && p in files
      ensures TaskAt(ks, p).Some?
    {
      var k :| k in ks && p in Chain(k.dest);
      assert PlacedTask(t, k, files, dirs);
      assert p == k.dest;
      TaskAtIs(ks, k);
    }
  }

  lemma CopiedIsSource(src: seq<byte>, old_: Option<seq<byte>>, pooled: bool)
    ensures CopiedBytes(src, old_, Record(0, 0), pooled) == src
  {
    Seq.CopyBlocksResult(src, Seq.Disk(Some([]), None), 0, Seq.Finishes);
    assert [] + src[0..] == src;
  }

  lemma NoTaskAtMissing(t: Tree, ks: set<Task>, p: Path)
    requires p !in t && p !in WrittenPaths(ks) && p != []
    ensures TaskAt(ks, p) == None
  {
    forall k | k in ks
      ensures k.dest != p
    {
      assert k.dest != [] ==> k.dest in Chain(k.dest) && k.dest in WrittenPaths(ks);
    }
  }

  /** One more task changes the final tree in one place and adds the missing parents. */
  lemma FinalExtended(t: Tree, ks: set<Task>, k: Task)
    requires forall x :: x in ks + {k} ==> x.isDir || IsFile(t, x.src)
    requires forall a, b :: a in ks + {k} && b in ks + {k} && a.dest == b.dest ==> a == b
    requires k.dest != [] && [] !in t
    ensures Final(t, ks + {k}) == WithDirs(Final(t, ks), Ancestors(k.dest), DEFAULT_DIR_MODE)[k.dest := Result(t, k)]
  {
    var w := WithDirs(Final(t, ks), Ancestors(k.dest), DEFAULT_DIR_MODE)[k.dest := Result(t, k)];
    var f := Final(t, ks + {k});
    assert f.Keys == w.Keys by {
      FinalKeysExtended(t, ks, k);
    }
    forall p | p in f
      ensures f[p] == w[p]
    {
      FinalExtendedAt(t, ks, k, p);
    }
    SameMap(f, w);
  }

  lemma SameMap(f: Tree, w: Tree)
    requires f.Keys == w.Keys && forall p :: p in f ==> f[p] == w[p]
    ensures f == w
  {
  }

  lemma FinalKeysExtended(t: Tree, ks: set<Task>, k: Task)
    requires forall x :: x in ks + {k} ==> x.isDir || IsFile(t, x.src)
    requires k.dest != []
    ensures Final(t, ks + {k}).Keys == Final(t, ks).Keys + Ancestors(k.dest) + {k.dest}
  {
    WrittenAdded(ks, k);
  }

  lemma FinalExtendedAt(t: Tree, ks: set<Task>, k: Task, p: Path)
    requires forall x :: x in ks + {k} ==> x.isDir || IsFile(t, x.src)
    requires forall a, b :: a in ks + {k} && b in ks + {k} && a.dest == b.dest ==> a == b
    requires k.dest != [] && [] !in t && p in Final(t, ks + {k})
    ensures
      var w := WithDirs(Final(t, ks), Ancestors(k.dest), DEFAULT_DIR_MODE)[k.dest := Result(t, k)];
      p in w && Final(t, ks + {k})[p] == w[p]
  {
    WrittenAdded(ks, k);
    EmptyIsNoAncestor(k.dest);
    TaskAtAdded(ks, k, p);
    if p != k.dest && p !in Final(t, ks) {
      NoTaskAtMissing(t, ks, p);
    }
  }

  lemma ExecuteDirectory(t: Tree, ks: set<Task>, k: Task, files: set<Path>, dirs: set<Path>)
    requires Separate(t, ks + {k}, files, dirs) && k !in ks && k.isDir
    ensures forall x :: x in ks + {k} ==> x.isDir || IsFile(t, x.src)
    ensures SyncDirectory(Final(t, ks), k) == Made(Final(t, ks + {k}), true)
  {
    SeparateLess(t, ks, ks + {k}, files, dirs);
    FinalFits(t, ks, files, dirs);
    assert PlacedTask(t, k, files, dirs);
    FinalExtended(t, ks, k);
    SyncDirectoryResult(Final(t, ks), k);
  }

  lemma SyncDirectoryResult(u: Tree, k: Task)
    requires [] !in u && k.dest != [] && NoFileAt(u, Chain(k.dest))
    ensures SyncDirectory(u, k) == Made(WithDirs(u, Ancestors(k.dest), DEFAULT_DIR_MODE)[k.dest := Dir(k.mode)], true)
  {
    CreateDirectoryAddsMissing(u, k.dest, DEFAULT_DIR_MODE);
    var v := WithDirs(u, Chain(k.dest), DEFAULT_DIR_MODE);
    assert k.dest in Chain(k.dest);
    assert v[k.dest := Dir(k.mode)] == WithDirs(u, Ancestors(k.dest), DEFAULT_DIR_MODE)[k.dest := Dir(k.mode)];
  }

  lemma SyncFileResult(u: Tree, k: Task, pooled: bool)
    requires IsFile(u, k.src) && [] !in u && k.dest != [] && k.src != k.dest
    requires NoFileAt(u, Ancestors(k.dest)) && k.dest !in Ancestors(k.dest)
    requires k.dest in u ==> u[k.dest].File?
    requires ProgressPath(k.dest) !in u && ProgressPath(k.dest) !in Ancestors(k.dest)
    ensures SyncFile(u, k, Overwrite, pooled) ==
            Made(WithDirs(u, Ancestors(k.dest), DEFAULT_DIR_MODE)[k.dest := File(u[k.src].data, k.mode)], true)
  {
    ParentChain(k.dest);
    CreateDirectoryAddsMissing(u, Parent(k.dest), DEFAULT_DIR_MODE);
    var v := WithDirs(u, Ancestors(k.dest), DEFAULT_DIR_MODE);
    var old_ := if k.dest in v then Some(v[k.dest].data) else None;
    CopiedIsSource(u[k.src].data, old_, pooled);
    assert PROGRESS_SUFFIX != [];
    assert |ProgressPath(k.dest)| > |k.dest|;
    var w := v[k.dest := File(u[k.src].data, k.mode)];
    assert w - {ProgressPath(k.dest)} == w;
  }

  lemma DestIsNoAncestor(p: Path)
    ensures p !in Ancestors(p)
  {
  }

  lemma ExecuteFile(t: Tree, ks: set<Task>, k: Task, files: set<Path>, dirs: set<Path>, pooled: bool)
    requires Separate(t, ks + {k}, files, dirs) && k !in ks && !k.isDir
    ensures forall x :: x in ks + {k} ==> x.isDir || IsFile(t, x.src)
    ensures SyncFile(Final(t, ks), k, Overwrite, pooled) == Made(Final(t, ks + {k}), true)
  {
    SeparateLess(t, ks, ks + {k}, files, dirs);
    FinalFits(t, ks, files, dirs);
    assert PlacedTask(t, k, files, dirs);
    assert k.src !in dirs;
    DestIsNoAncestor(k.dest);
    FinalExtended(t, ks, k);
    SyncFileResult(Final(t, ks), k, pooled);
  }

  // ---------- one file under every strategy ----------

  /** The destination of a file task and its progress file, which holds what saveProgress wrote if it is
      there at all. */
  ghost predicate OnDisk(t: Tree, dest: Path, d: Seq.Disk) {
    && (dest in t ==> t[dest].File?)
    && d.dest == (if dest in t then Some(t[dest].data) else None)
    && match d.record
       case None => ProgressPath(dest) !in t
       case Some(r) => IsFile(t, ProgressPath(dest)) && t[ProgressPath(dest)].data == SavedText(dest, r.offset, r.total)
  }

  /** A file task whose source is there and is neither its destination nor its backup, with no regular file
      above its destination and no directory in the place of its backup. */
  ghost predicate Ready(t: Tree, k: Task) {
    && !k.isDir && k.dest != [] && [] !in t && NoFileAt(t, Ancestors(k.dest))
    && IsFile(t, k.src) && k.src != k.dest && k.src != k.dest + BACKUP_SUFFIX
    && (k.dest + BACKUP_SUFFIX in t ==> t[k.dest + BACKUP_SUFFIX].File?)
  }

  lemma SuffixesApart(p: Path)
    ensures p + BACKUP_SUFFIX != p && ProgressPath(p) != p && ProgressPath(p) != p + BACKUP_SUFFIX
    ensures p + BACKUP_SUFFIX !in Ancestors(p) && ProgressPath(p) !in Ancestors(p)
  {
    assert |BACKUP_SUFFIX| == 4 && |PROGRESS_SUFFIX| == 14;
  }

  lemma ConflictKeeps(t: Tree, k: Task, s: Strategy, d: Seq.Disk)
    requires Ready(t, k) && OnDisk(t, k.dest, d)
    ensures
      var v := WithDirs(t, Ancestors(k.dest), DEFAULT_DIR_MODE);
      && CreateDirectory(t, Parent(k.dest), DEFAULT_DIR_MODE) == Made(v, true)
      && IsFile(v, k.src) && v[k.src] == t[k.src] && OnDisk(v, k.dest, d)
      && (k.dest in v ==>
            var c := HandleConflict(v, k.dest, s);
            && (c.ok <==> !s.Skip?)
            && (c.ok ==> && OnDisk(c.tree, k.dest, Copy.AfterConflict(d, s))
                         && IsFile(c.tree, k.src) && c.tree[k.src] == t[k.src]
                         && (s.Rename? ==>
                            k.dest + BACKUP_SUFFIX in c.tree && c.tree[k.dest + BACKUP_SUFFIX] == t[k.dest])))
  {
    ParentChain(k.dest);
    EmptyIsNoAncestor(k.dest);
    DestIsNoAncestor(k.dest);
    SuffixesApart(k.dest);
    CreateDirectoryAddsMissing(t, Parent(k.dest), DEFAULT_DIR_MODE);
  }

  lemma CopyTaskIsCopyFile(t: Tree, k: Task, pooled: bool, d: Seq.Disk, e: Copy.Fates)
    requires IsFile(t, k.src) && OnDisk(t, k.dest, d) && HasPlace(t, k.dest)
    requires Copy.Undisturbed(e) && Copy.Collected(t[k.src].data, e.parallel) && Par.AllSucceeded(e.parallel)
    requires |t[k.src].data| <= 0x7FFF_FFFF * Par.CHUNK
    ensures
      var c := Copy.CopyFile(t[k.src].data, k.dest, d, pooled, e);
      && c.end == Seq.Returned(true) && c.disk.dest.Some?
      && CopyTask(t, k, pooled) ==
         Made(t[k.dest := File(c.disk.dest.value, k.mode)] - {ProgressPath(k.dest)}, true)
  {
    assert ProgressAt(t, k.dest) == LoadProgress(k.dest, d.record) by {
      if d.record.Some? {
        LoadProgressReads(k.dest, d.record.value);
      }
    }
    CopiedBytesAreCopyFiles(t[k.src].data, k.dest, d, pooled, e);
  }

  lemma PlaceAbove(t: Tree, p: Path)
    requires p != [] && NoFileAt(t, Ancestors(p)) && [] !in t && (p in t ==> t[p].File?)
    ensures HasPlace(t, p)
  {
    ParentChain(p);
    assert Parent(p) != [] ==> Parent(p) in Chain(Parent(p));
  }

  /** What the planner's task does to its destination is what an undisturbed call of syncFile does, under
      every strategy: it succeeds in the same cases, with the same bytes, and leaves no progress file. */
  lemma TaskIsSyncFile(t: Tree, k: Task, s: Strategy, pooled: bool, d: Seq.Disk, e: Copy.Fates)
    requires Ready(t, k) && OnDisk(t, k.dest, d)
    requires Copy.Undisturbed(e) && Copy.Collected(t[k.src].data, e.parallel) && Par.AllSucceeded(e.parallel)
    requires |t[k.src].data| <= 0x7FFF_FFFF * Par.CHUNK
    ensures
      var u := SyncFile(t, k, s, pooled);
      var c := Copy.SyncFile(t[k.src].data, k.dest, d, s, pooled, e);
      && (u.ok <==> c.end == Seq.Returned(true))
      && (u.ok ==> && c.disk.dest.Some? && k.dest in u.tree && u.tree[k.dest] == File(c.disk.dest.value, k.mode)
                   && ProgressPath(k.dest) !in u.tree)
      && (!u.ok ==> u.tree == WithDirs(t, Ancestors(k.dest), DEFAULT_DIR_MODE))
  {
    ConflictKeeps(t, k, s, d);
    SuffixesApart(k.dest);
    var v := WithDirs(t, Ancestors(k.dest), DEFAULT_DIR_MODE);
    if k.dest in v {
      if !s.Skip? {
        var c := HandleConflict(v, k.dest, s);
        PlaceAbove(c.tree, k.dest);
        CopyTaskIsCopyFile(c.tree, k, pooled, Copy.AfterConflict(d, s), e);
      }
    } else {
      PlaceAbove(v, k.dest);
      CopyTaskIsCopyFile(v, k, pooled, d, e);
    }
  }

  /** A file task under any strategy, on a destination whose record, if any, fits it: it succeeds and makes
      the destination equal to its source, if and only if the way is clear. */
  lemma TaskExactIff(t: Tree, k: Task, s: Strategy, pooled: bool, d: Seq.Disk, e: Copy.Fates)
    requires Ready(t, k) && OnDisk(t, k.dest, d) && Copy.Sound(t[k.src].data, k.dest, d)
    requires Copy.Undisturbed(e) && Copy.Collected(t[k.src].data, e.parallel) && Par.AllSucceeded(e.parallel)
    requires |t[k.src].data| <= 0x7FFF_FFFF * Par.CHUNK
    ensures
      var u := SyncFile(t, k, s, pooled);
      u.ok && k.dest in u.tree && u.tree[k.dest] == File(t[k.src].data, k.mode) <==> Copy.Clear(k.dest, d, s)
  {
    TaskIsSyncFile(t, k, s, pooled, d, e);
    Copy.UndisturbedExactIff(t[k.src].data, k.dest, d, s, pooled, e);
    Copy.SyncFileExactIff(t[k.src].data, k.dest, d, s, pooled, e);
  }

  /** Under rename an existing destination is never lost: it is the backup afterwards. */
  lemma RenameKeepsTheOld(t: Tree, k: Task, pooled: bool, d: Seq.Disk)
    requires Ready(t, k) && OnDisk(t, k.dest, d) && k.dest in t
    ensures
      var u := SyncFile(t, k, Rename, pooled);
      u.ok && k.dest + BACKUP_SUFFIX in u.tree && u.tree[k.dest + BACKUP_SUFFIX] == t[k.dest]
  {
    ConflictKeeps(t, k, Rename, d);
    SuffixesApart(k.dest);
  }

  // ---------- one task on any tree ----------

  /** The conflict step stops the task. */
  predicate Refuses(t: Tree, k: Task, s: Strategy) {
    k.dest in t && (s.Skip? || (s.Rename? && k.dest + BACKUP_SUFFIX in t && t[k.dest + BACKUP_SUFFIX].Dir?))
  }

  /** The rename moves the source away, or puts a directory in its place. */
  predicate LosesSource(t: Tree, k: Task, s: Strategy) {
    s.Rename? && k.dest in t && (k.src == k.dest || (k.src == k.dest + BACKUP_SUFFIX && t[k.dest].Dir?))
  }

  /** There is nothing at the destination and no directory to make it in. */
  predicate NoPlace(t: Tree, k: Task, s: Strategy) {
    (k.dest !in t || s.Rename?) && (k.dest == [] || (Parent(k.dest) != [] && IsFile(t, Parent(k.dest))))
  }

  /** A directory stays at the destination. */
  predicate DirInTheWay(t: Tree, k: Task, s: Strategy, pooled: bool)
    requires IsFile(t, k.src)
  {
    && !s.Rename? && k.dest in t && t[k.dest].Dir?
    && !(Copy.InParallel(t[k.src].data, pooled) && IsEmptyDir(t, k.dest))
  }

  /** The directories above the destination do not matter to any of these. */
  lemma AboveDoesNotMatter(t: Tree, k: Task, s: Strategy)
    ensures
      var v := WithDirs(t, Ancestors(k.dest), DEFAULT_DIR_MODE);
      && (k.dest in v <==> k.dest in t) && (k.dest in t ==> v[k.dest] == t[k.dest])
      && (k.dest + BACKUP_SUFFIX in v <==> k.dest + BACKUP_SUFFIX in t)
      && (k.dest + BACKUP_SUFFIX in t ==> v[k.dest + BACKUP_SUFFIX] == t[k.dest + BACKUP_SUFFIX])
      && (IsEmptyDir(v, k.dest) <==> IsEmptyDir(t, k.dest))
      && (k.src in t ==> k.src in v && v[k.src] == t[k.src])
      && (IsFile(v, Parent(k.dest)) <==> IsFile(t, Parent(k.dest)))
  {
    SuffixesApart(k.dest);
    DestIsNoAncestor(k.dest);
    forall q | q in Ancestors(k.dest)
      ensures !(k.dest + [SLASH] <= q)
    {
    }
  }

  /** A file task on any tree, under any strategy: it succeeds if and only if the source is a file, no directory
      above the destination is blocked by a regular file, the conflict step lets it pass and leaves the source,
      the destination has a place, and no directory stays there. */
  lemma FileTaskOkIff(t: Tree, k: Task, s: Strategy, pooled: bool)
    ensures
      SyncFile(t, k, s, pooled).ok <==>
      && IsFile(t, k.src) && (forall q :: q in Ancestors(k.dest) ==> !Blocked(t, q))
      && !Refuses(t, k, s) && !LosesSource(t, k, s) && !NoPlace(t, k, s) && !DirInTheWay(t, k, s, pooled)
  {
    if IsFile(t, k.src) {
      CreateDirectoryResult(t, Parent(k.dest), DEFAULT_DIR_MODE);
      ParentChain(k.dest);
      if CreateDirectory(t, Parent(k.dest), DEFAULT_DIR_MODE).ok {
        AboveDoesNotMatter(t, k, s);
        RestOkIff(t, WithDirs(t, Ancestors(k.dest), DEFAULT_DIR_MODE), k, s, pooled);
      }
    }
  }

  /** What follows the creation of the directories above. */
  lemma RestOkIff(t: Tree, v: Tree, k: Task, s: Strategy, pooled: bool)
    requires IsFile(t, k.src) && k.src in v && v[k.src] == t[k.src]
    requires (k.dest in v <==> k.dest in t) && (k.dest in t ==> v[k.dest] == t[k.dest])
    requires k.dest + BACKUP_SUFFIX in v <==> k.dest + BACKUP_SUFFIX in t
    requires k.dest + BACKUP_SUFFIX in t ==> v[k.dest + BACKUP_SUFFIX] == t[k.dest + BACKUP_SUFFIX]
    requires IsEmptyDir(v, k.dest) <==> IsEmptyDir(t, k.dest)
    requires IsFile(v, Parent(k.dest)) <==> IsFile(t, Parent(k.dest))
    ensures
      var c := if k.dest in v then HandleConflict(v, k.dest, s) else Made(v, true);
      (c.ok && CopyTask(c.tree, k, pooled).ok) <==>
      !Refuses(t, k, s) && !LosesSource(t, k, s) && !NoPlace(t, k, s) && !DirInTheWay(t, k, s, pooled)
  {
    SuffixesApart(k.dest);
    assert |Parent(k.dest)| <= |k.dest|;
  }

  /** Nothing differs but at the given paths, and nothing else is new but directories above them. */
  predicate Apart(t: Tree, u: Tree, at: set<Path>, above: set<Path>) {
    && (forall q :: q in t && q !in at ==> q in u && u[q] == t[q])
    && (forall q :: q in u && q !in t && q !in at ==> q in above && u[q] == Dir(DEFAULT_DIR_MODE))
  }

  lemma CreationApart(t: Tree, p: Path, at: set<Path>)
    ensures Apart(t, CreateDirectory(t, p, DEFAULT_DIR_MODE).tree, at, Chain(p))
  {
    CreateDirectoryResult(t, p, DEFAULT_DIR_MODE);
  }

  lemma CopyApart(t: Tree, k: Task, pooled: bool, at: set<Path>)
    requires {k.dest, ProgressPath(k.dest)} <= at
    ensures Apart(t, CopyTask(t, k, pooled).tree, at, {})
  {
  }

  lemma ConflictApart(t: Tree, k: Task, s: Strategy, at: set<Path>)
    requires k.dest in t && k.dest in at && (s.Rename? ==> k.dest + BACKUP_SUFFIX in at)
    ensures Apart(t, HandleConflict(t, k.dest, s).tree, at, {})
  {
  }

  /** The paths that a file task may touch. */
  function OwnPaths(k: Task, s: Strategy): set<Path> {
    {k.dest, ProgressPath(k.dest)} + if s.Rename? then {k.dest + BACKUP_SUFFIX} else {}
  }

  /** Whatever its outcome, it changes nothing but its destination, the progress file and, when it renames, the
      backup, and adds nothing else but directories above the destination. */
  lemma FileTaskFrame(t: Tree, k: Task, s: Strategy, pooled: bool)
    ensures Apart(t, SyncFile(t, k, s, pooled).tree, OwnPaths(k, s), Ancestors(k.dest))
  {
    var m, at := CreateDirectory(t, Parent(k.dest), DEFAULT_DIR_MODE), OwnPaths(k, s);
    ParentChain(k.dest);
    CreationApart(t, Parent(k.dest), at);
    var c := if k.dest in m.tree then HandleConflict(m.tree, k.dest, s) else m;
    if k.dest in m.tree {
      ConflictApart(m.tree, k, s, at);
    }
    CopyApart(c.tree, k, pooled, at);
  }

  /** What overwriting does to a directory at the destination, and to a progress file: one that has something in it
      stays, and the task fails. An empty one is removed; the task fails all the same, unless the file is large
      enough for the parallel copy, and the same task then succeeds the second time. */
  lemma DirectoryAtDestination(t: Tree, k: Task, pooled: bool)
    requires IsFile(t, k.src) && k.dest != [] && k.dest in t && t[k.dest].Dir?
    requires (forall q :: q in Ancestors(k.dest) ==> q in t) && !IsFile(t, Parent(k.dest))
    ensures
      var r := SyncFile(t, k, Overwrite, pooled);
      && (IsFile(t, ProgressPath(k.dest)) ==> ProgressPath(k.dest) !in r.tree)
      && if exists q :: q in t && k.dest + [SLASH] <= q then !r.ok && k.dest in r.tree && r.tree[k.dest] == t[k.dest]
         else if |t[k.src].data| >= 10_485_760 && pooled then r.ok && r.tree[k.dest] == File(t[k.src].data, k.mode)
         else
           && !r.ok && k.dest !in r.tree
           && (k.src != ProgressPath(k.dest) ==> SyncFile(r.tree, k, Overwrite, pooled).ok)
  {
    var v := WithDirs(t, Ancestors(k.dest), DEFAULT_DIR_MODE);
    CreateDirectoryResult(t, Parent(k.dest), DEFAULT_DIR_MODE);
    ParentChain(k.dest);
    assert v == t;
    assert k.dest != ProgressPath(k.dest) by {
      SuffixesApart(k.dest);
    }
    EmptyOrNot(t, k.dest);
    if IsEmptyDir(t, k.dest) && k.src != ProgressPath(k.dest) {
      SecondTime(t, k, pooled);
    }
  }

  lemma EmptyOrNot(t: Tree, p: Path)
    requires p in t && t[p].Dir?
    ensures IsEmptyDir(t, p) <==> !exists q :: q in t && p + [SLASH] <= q
  {
  }

  lemma SecondTime(t: Tree, k: Task, pooled: bool)
    requires IsFile(t, k.src) && k.dest != [] && IsEmptyDir(t, k.dest) && !IsFile(t, Parent(k.dest))
    requires (forall q :: q in Ancestors(k.dest) ==> q in t) && k.src != ProgressPath(k.dest)
    ensures k.dest !in CleanUp(t, k.dest) && SyncFile(CleanUp(t, k.dest), k, Overwrite, pooled).ok
  {
    var u := CleanUp(t, k.dest);
    SuffixesApart(k.dest);
    DestIsNoAncestor(k.dest);
    assert k.dest !in u && IsFile(u, k.src) && !IsFile(u, Parent(k.dest));
    forall q | q in Ancestors(k.dest)
      ensures !Blocked(u, q)
    {
      assert q != k.dest && q != ProgressPath(k.dest);
    }
    FileTaskOkIff(u, k, Overwrite, pooled);
  }

  /** A directory task on any tree: it succeeds if and only if its destination is not the empty path and no level
      of it is blocked; then the missing directories are there and the destination has the task's mode. */
  lemma DirectoryTaskResult(t: Tree, k: Task)
    requires [] !in t
    ensures
      var r := SyncDirectory(t, k);
      && (r.ok <==> k.dest != [] && forall q :: q in Chain(k.dest) ==> !Blocked(t, q))
      && (r.ok ==>
            var v := WithDirs(t, Chain(k.dest), DEFAULT_DIR_MODE);
            k.dest in v && r.tree == v[k.dest := v[k.dest].(mode := k.mode)])
  {
    CreateDirectoryResult(t, k.dest, DEFAULT_DIR_MODE);
  }

  /** So it reports success on a regular file, of which it changes the mode and which it leaves where the directory
      should be. */
  lemma DirectoryTaskTakesFile(t: Tree, k: Task)
    requires [] !in t && k.dest != [] && IsFile(t, k.dest) && forall q :: q in Ancestors(k.dest) ==> q in t
    ensures SyncDirectory(t, k) == Made(t[k.dest := File(t[k.dest].data, k.mode)], true)
  {
    DirectoryTaskResult(t, k);
    assert WithDirs(t, Chain(k.dest), DEFAULT_DIR_MODE) == t;
  }

  // ---------- tasks that fail ----------

  /** The tree in which the i-th task is executed. */
  function TreeBefore(t: Tree, ks: seq<Task>, i: nat, s: Strategy, pooled: bool): Tree
    requires i <= |ks|
  {
    ExecuteAll(t, ks[..i], s, pooled).tree
  }

  /** All tasks succeed if and only if each does in its turn. */
  lemma {:induction false} AllSucceedIff(t: Tree, ks: seq<Task>, s: Strategy, pooled: bool)
    ensures
      ExecuteAll(t, ks, s, pooled).ok <==>
      forall i :: 0 <= i < |ks| ==> Execute(TreeBefore(t, ks, i, s, pooled), ks[i], s, pooled).ok
    decreases |ks|
  {
    if ks != [] {
      var m := Execute(t, ks[0], s, pooled);
      AllSucceedIff(m.tree, ks[1..], s, pooled);
      assert TreeBefore(t, ks, 0, s, pooled) == t;
      forall i | 0 < i < |ks|
        ensures TreeBefore(t, ks, i, s, pooled) == TreeBefore(m.tree, ks[1..], i - 1, s, pooled)
        ensures ks[i] == ks[1..][i - 1]
      {
        assert ks[..i][0] == ks[0] && ks[..i][1..] == ks[1..][..i - 1];
      }
      if forall i :: 0 <= i < |ks| ==> Execute(TreeBefore(t, ks, i, s, pooled), ks[i], s, pooled).ok {
        forall i | 0 <= i < |ks[1..]|
          ensures Execute(TreeBefore(m.tree, ks[1..], i, s, pooled), ks[1..][i], s, pooled).ok
        {
          assert ks[i + 1] == ks[1..][i];
        }
      }
    }
  }

  // ---------- any order ----------

  ghost predicate NoRepeats(ks: seq<Task>) {
    forall i, j :: 0 <= i < j < |ks| ==> ks[i] != ks[j]
  }

  function AsSet(ks: seq<Task>): set<Task> {
    set k | k in ks
  }

  lemma {:induction false} ExecuteAllFrom(t: Tree, done: set<Task>, ks: seq<Task>, files: set<Path>, dirs: set<Path>,
                                          pooled: bool)
    requires Separate(t, done + AsSet(ks), files, dirs) && NoRepeats(ks) && done !! AsSet(ks)
    ensures forall x :: x in done + AsSet(ks) ==> x.isDir || IsFile(t, x.src)
    ensures ExecuteAll(Final(t, done), ks, Overwrite, pooled) == Made(Final(t, done + AsSet(ks)), true)
    decreases |ks|
  {
    var all := done + AsSet(ks);
    forall x | x in all
      ensures x.isDir || IsFile(t, x.src)
    {
      assert PlacedTask(t, x, files, dirs);
    }
    if ks == [] {
      assert all == done;
    } else {
      var k := ks[0];
      assert k in AsSet(ks);
      assert AsSet(ks) == {k} + AsSet(ks[1..]) by {
        assert ks == [k] + ks[1..];
      }
      assert k !in AsSet(ks[1..]);
      SeparateLess(t, done + {k}, all, files, dirs);
      if k.isDir {
        ExecuteDirectory(t, done, k, files, dirs);
      } else {
        ExecuteFile(t, done, k, files, dirs, pooled);
      }
      assert done + {k} + AsSet(ks[1..]) == all;
      ExecuteAllFrom(t, done + {k}, ks[1..], files, dirs, pooled);
    }
  }

  lemma FinalOfNothing(t: Tree)
    ensures Final(t, {}) == t
  {
  }

  /** Whatever order the pool runs the tasks in, every task succeeds and the tree is the same: it depends
      only on the set of tasks. */
  lemma AnyOrderSameTree(t: Tree, ks: seq<Task>, others: seq<Task>, files: set<Path>, dirs: set<Path>, pooled: bool)
    requires Separate(t, AsSet(ks), files, dirs)
    requires NoRepeats(ks) && NoRepeats(others) && AsSet(ks) == AsSet(others)
    ensures ExecuteAll(t, ks, Overwrite, pooled) == ExecuteAll(t, others, Overwrite, pooled)
    ensures ExecuteAll(t, ks, Overwrite, pooled).ok
    ensures forall k :: k in ks ==> k.isDir || IsFile(t, k.src)
    ensures ExecuteAll(t, ks, Overwrite, pooled).tree == Final(t, AsSet(ks))
  {
    FinalOfNothing(t);
    assert {} + AsSet(ks) == AsSet(ks);
    ExecuteAllFrom(t, {}, ks, files, dirs, pooled);
    ExecuteAllFrom(t, {}, others, files, dirs, pooled);
  }

  /** In that tree every destination holds its source's bytes and mode, or is a directory of the right
      mode; every other path is as it was, save for parent directories that had to be made. */
  lemma FinalMatchesSources(t: Tree, ks: set<Task>, files: set<Path>, dirs: set<Path>)
    requires Separate(t, ks, files, dirs)
    ensures forall k :: k in ks ==> k.isDir || IsFile(t, k.src)
    ensures
      var u := Final(t, ks);
      && (forall k :: k in ks ==> k.dest in u && u[k.dest] == Result(t, k))
      && (forall p :: p in t && TaskAt(ks, p) == None ==> p in u && u[p] == t[p])
      && (forall p :: p in u && p !in t && TaskAt(ks, p) == None ==> p in dirs && u[p] == Dir(DEFAULT_DIR_MODE))
  {
    forall k | k in ks
      ensures k.isDir || IsFile(t, k.src)
      ensures k.dest in WrittenPaths(ks) && TaskAt(ks, k.dest) == Some(k)
    {
      assert PlacedTask(t, k, files, dirs);
      assert k.dest in Chain(k.dest);
      TaskAtIs(ks, k);
    }
    WrittenPlaced(t, ks, files, dirs);
    FinalFits(t, ks, files, dirs);
  }
}
