/** A whole local synchronisation: metadata of both trees, the due tasks, and their execution by the pool
    in whatever order. */
module LocalSync {
  import opened Bytes
  import opened Results
  import opened FileTree
  import opened Planner
  import opened Conflict
  import opened Listing

  /** detectChanges: the tasks due for the two directories as they are. */
  function Due(t: Tree, a: Attributes, srcDir: Path, destDir: Path): set<Task> {
    assert forall p :: p in Below(t, Inside(srcDir)) ==> srcDir <= Inside(srcDir) <= p;
    DueTasks(Metadata(t, a, Inside(srcDir)), Metadata(t, a, Inside(destDir)), srcDir, destDir)
  }

  /** What synchronising p to q is for: the same bytes, or at least the same size and digest, and a
      directory for a directory. */
  ghost predicate Matches(t: Tree, a: Attributes, p: Path, u: Tree, q: Path) {
    && p in t && q in u
    && (t[p].Dir? <==> u[q].Dir?)
    && (t[p].File? ==>
          u[q].data == t[p].data || (|u[q].data| == |t[p].data| && a.md5(u[q].data) == a.md5(t[p].data)))
  }

  lemma DueIff(t: Tree, a: Attributes, srcDir: Path, destDir: Path, p: Path)
    requires p in Below(t, Inside(srcDir))
    ensures srcDir <= p
    ensures
      var src, dest := Metadata(t, a, Inside(srcDir)), Metadata(t, a, Inside(destDir));
      var q := Image(srcDir, destDir, p);
      && p in src
      && (Wanted(src, dest, srcDir, destDir, p) ==> TaskFor(src, srcDir, destDir, p) in Due(t, a, srcDir, destDir))
      && (!Wanted(src, dest, srcDir, destDir, p) ==> TaskAt(Due(t, a, srcDir, destDir), q) == None)
  {
    assert srcDir <= Inside(srcDir) <= p;
    var src, dest := Metadata(t, a, Inside(srcDir)), Metadata(t, a, Inside(destDir));
    var q := Image(srcDir, destDir, p);
    if !Wanted(src, dest, srcDir, destDir, p) {
      forall k | k in Due(t, a, srcDir, destDir)
        ensures k.dest != q
      {
        assert srcDir <= Inside(srcDir) <= k.src;
        ImageInjectiveOrSame(srcDir, destDir, k.src, p);
        assert k == TaskFor(src, srcDir, destDir, k.src) && Wanted(src, dest, srcDir, destDir, k.src);
      }
    }
  }

  lemma ImageInjectiveOrSame(srcDir: Path, destDir: Path, p: Path, q: Path)
    requires srcDir <= p && srcDir <= q
    ensures Image(srcDir, destDir, p) == Image(srcDir, destDir, q) ==> p == q
  {
    if p != q {
      ImageInjective(srcDir, destDir, p, q);
    }
  }

  /** Whatever order the pool runs the due tasks in: all succeed, every source path is matched by its image,
      and every other path is as it was, save for parent directories that had to be made. */
  lemma LocalSyncMatches(t: Tree, a: Attributes, srcDir: Path, destDir: Path, order: seq<Task>,
                         files: set<Path>, dirs: set<Path>, pooled: bool)
    requires Separate(t, Due(t, a, srcDir, destDir), files, dirs)
    requires NoRepeats(order) && AsSet(order) == Due(t, a, srcDir, destDir)
    ensures
      var r := ExecuteAll(t, order, Overwrite, pooled);
      && r.ok
      && (forall p :: p in Below(t, Inside(srcDir)) ==>
            srcDir <= p && Matches(t, a, p, r.tree, Image(srcDir, destDir, p)))
      && (forall q :: q in t && (forall k :: k in order ==> k.dest != q) ==> q in r.tree && r.tree[q] == t[q])
      && (forall q :: q in r.tree && q !in t && (forall k :: k in order ==> k.dest != q) ==>
            q in dirs && r.tree[q] == Dir(DEFAULT_DIR_MODE))
  {
    var ks := Due(t, a, srcDir, destDir);
    AnyOrderSameTree(t, order, order, files, dirs, pooled);
    FinalMatchesSources(t, ks, files, dirs);
    var u := Final(t, ks);
    forall p | p in Below(t, Inside(srcDir))
      ensures srcDir <= p && Matches(t, a, p, u, Image(srcDir, destDir, p))
    {
      PathMatches(t, a, srcDir, destDir, files, dirs, p);
    }
    forall q | forall k :: k in order ==> k.dest != q
      ensures TaskAt(ks, q) == None
    {
      assert forall k :: k in ks ==> k in order;
    }
  }

  /** What stat(2) and the digest report of the two paths is the same, modes aside. */
  predicate UpToDate(t: Tree, a: Attributes, p: Path, q: Path) {
    && p in t && q in t
    && a.mtime(p) == a.mtime(q)
    && match t[p]
       case File(data, _) => t[q].File? && |data| == |t[q].data| && a.md5(data) == a.md5(t[q].data)
       case Dir(_) => t[q].Dir? && a.dirSize(p) == a.dirSize(q)
  }

  /** Every task is from a source path to its image, makes a directory of a directory and has the source's mode. */
  lemma DueTasksFit(t: Tree, a: Attributes, srcDir: Path, destDir: Path, k: Task)
    requires k in Due(t, a, srcDir, destDir)
    ensures k.src in Below(t, Inside(srcDir)) && srcDir <= k.src && k.dest == Image(srcDir, destDir, k.src)
    ensures k.isDir == t[k.src].Dir? && k.mode == t[k.src].mode
  {
  }

  /** A source path is planned for if and only if it is not up to date. */
  lemma DueIffOutdated(t: Tree, a: Attributes, srcDir: Path, destDir: Path, p: Path)
    requires p in Below(t, Inside(srcDir))
    ensures srcDir <= p
    ensures (exists k :: k in Due(t, a, srcDir, destDir) && k.src == p) <==>
            !UpToDate(t, a, p, Image(srcDir, destDir, p))
    ensures UpToDate(t, a, p, Image(srcDir, destDir, p)) ==>
            forall k :: k in Due(t, a, srcDir, destDir) ==> k.dest != Image(srcDir, destDir, p)
  {
    DueIff(t, a, srcDir, destDir, p);
    var src, dest := Metadata(t, a, Inside(srcDir)), Metadata(t, a, Inside(destDir));
    var q := Image(srcDir, destDir, p);
    ImageInside(srcDir, destDir, p);
    assert q in t <==> q in dest;
    if Wanted(src, dest, srcDir, destDir, p) {
      assert TaskFor(src, srcDir, destDir, p).src == p;
    } else {
      assert forall k :: k in Due(t, a, srcDir, destDir) && k.dest == q ==> TaskAt(Due(t, a, srcDir, destDir), q).Some?;
    }
  }

  lemma ImageInside(srcDir: Path, destDir: Path, p: Path)
    requires Inside(srcDir) <= p && p != Inside(srcDir)
    ensures srcDir <= p
    ensures Inside(destDir) <= Image(srcDir, destDir, p) && Image(srcDir, destDir, p) != Inside(destDir)
  {
    assert srcDir <= Inside(srcDir) <= p && p[|srcDir|] == SLASH;
  }

  /** A synchronisation writes nothing that is up to date, and nothing at all if everything is. */
  lemma UpToDateIsLeft(t: Tree, a: Attributes, srcDir: Path, destDir: Path, order: seq<Task>,
                       files: set<Path>, dirs: set<Path>, pooled: bool, p: Path)
    requires Separate(t, Due(t, a, srcDir, destDir), files, dirs)
    requires NoRepeats(order) && AsSet(order) == Due(t, a, srcDir, destDir)
    requires p in Below(t, Inside(srcDir))
    ensures
      var r := ExecuteAll(t, order, Overwrite, pooled);
      && srcDir <= p
      && (UpToDate(t, a, p, Image(srcDir, destDir, p)) ==>
            var q := Image(srcDir, destDir, p);
            q in r.tree && r.tree[q] == t[q])
  {
    DueIffOutdated(t, a, srcDir, destDir, p);
    LocalSyncMatches(t, a, srcDir, destDir, order, files, dirs, pooled);
    assert forall k :: k in order ==> k in AsSet(order);
  }

  lemma NothingToDo(t: Tree, a: Attributes, srcDir: Path, destDir: Path)
    ensures
      Due(t, a, srcDir, destDir) == {} <==>
      forall p :: p in Below(t, Inside(srcDir)) ==> srcDir <= p && UpToDate(t, a, p, Image(srcDir, destDir, p))
  {
    var ks := Due(t, a, srcDir, destDir);
    forall p | p in Below(t, Inside(srcDir))
      ensures srcDir <= p
      ensures (exists k :: k in ks && k.src == p) <==> !UpToDate(t, a, p, Image(srcDir, destDir, p))
    {
      DueIffOutdated(t, a, srcDir, destDir, p);
    }
    forall k | k in ks
      ensures k.src in Below(t, Inside(srcDir))
    {
    }
  }

  lemma PathMatches(t: Tree, a: Attributes, srcDir: Path, destDir: Path, files: set<Path>, dirs: set<Path>, p: Path)
    requires Separate(t, Due(t, a, srcDir, destDir), files, dirs) && p in Below(t, Inside(srcDir))
    ensures forall k :: k in Due(t, a, srcDir, destDir) ==> k.isDir || IsFile(t, k.src)
    ensures srcDir <= p && Matches(t, a, p, Final(t, Due(t, a, srcDir, destDir)), Image(srcDir, destDir, p))
  {
    var ks := Due(t, a, srcDir, destDir);
    FinalMatchesSources(t, ks, files, dirs);
    DueIff(t, a, srcDir, destDir, p);
    var src, dest := Metadata(t, a, Inside(srcDir)), Metadata(t, a, Inside(destDir));
    var q := Image(srcDir, destDir, p);
    if Wanted(src, dest, srcDir, destDir, p) {
      assert TaskFor(src, srcDir, destDir, p) in ks;
    } else {
      assert q in dest && q in t;
    }
  }

  // ---------- syncLocal ----------

  /** The loop of syncLocal: it gives up at the first task that fails. */
  function RunUntilFailure(t: Tree, ks: seq<Task>, s: Strategy, pooled: bool): Made
    decreases |ks|
  {
    if ks == [] then Made(t, true)
    else
      var m := Execute(t, ks[0], s, pooled);
      if m.ok then RunUntilFailure(m.tree, ks[1..], s, pooled) else m
  }

  method ExecuteTasks(t: Tree, ks: seq<Task>, s: Strategy, pooled: bool) returns (r: Made)
    ensures r == RunUntilFailure(t, ks, s, pooled)
  {
    r := Made(t, true);
    var i := 0;
    ghost var left := ks;
    while i < |ks|
      invariant 0 <= i <= |ks| && left == ks[i..] && r.ok
      invariant RunUntilFailure(t, ks, s, pooled) == RunUntilFailure(r.tree, left, s, pooled)
    {
      assert left[0] == ks[i];
      r := Execute(r.tree, ks[i], s, pooled);
      if !r.ok {
        return;
      }
      i, left := i + 1, left[1..];
    }
  }

  /** FileSync::syncLocal: the destination directory, the metadata of both sides, the plan, and its tasks in the
      order in which the plan lists them. */
  method SyncLocal(t: Tree, a: Attributes, srcDir: Path, destDir: Path, s: Strategy, pooled: bool)
    returns (r: Made, order: seq<Task>)
    requires Closed(CreateDirectory(t, destDir, DEFAULT_DIR_MODE).tree, Inside(srcDir))
    requires Closed(CreateDirectory(t, destDir, DEFAULT_DIR_MODE).tree, Inside(destDir))
    ensures
      var m := CreateDirectory(t, destDir, DEFAULT_DIR_MODE);
      if !m.ok then r == m && order == []
      else
        && NoRepeats(order) && AsSet(order) == Due(m.tree, a, srcDir, destDir)
        && r == RunUntilFailure(m.tree, order, s, pooled)
  {
    order := [];
    r := CreateDirectoryByLevels(t, destDir, DEFAULT_DIR_MODE);
    if !r.ok {
      return;
    }
    var src := CollectMetadata(r.tree, a, Inside(srcDir));
    var dest := CollectMetadata(r.tree, a, Inside(destDir));
    assert forall p :: p in src ==> srcDir <= Inside(srcDir) <= p;
    order := CompareMetadata(src, dest, srcDir, destDir);
    r := ExecuteTasks(r.tree, order, s, pooled);
  }

  /** Giving up makes no difference to whether all tasks succeed, nor to the tree if they do. */
  lemma {:induction false} GivingUpIff(t: Tree, ks: seq<Task>, s: Strategy, pooled: bool)
    ensures RunUntilFailure(t, ks, s, pooled).ok <==> ExecuteAll(t, ks, s, pooled).ok
    ensures RunUntilFailure(t, ks, s, pooled).ok ==>
            RunUntilFailure(t, ks, s, pooled) == ExecuteAll(t, ks, s, pooled)
    decreases |ks|
  {
    if ks != [] {
      GivingUpIff(Execute(t, ks[0], s, pooled).tree, ks[1..], s, pooled);
    }
  }

  /** If it does give up, it has executed the tasks in front of the one that failed, and no other. */
  lemma {:induction false} GivesUpAtFirst(t: Tree, ks: seq<Task>, s: Strategy, pooled: bool) returns (i: nat)
    requires !RunUntilFailure(t, ks, s, pooled).ok
    ensures i < |ks| && RunUntilFailure(t, ks[..i], s, pooled).ok
    ensures RunUntilFailure(t, ks, s, pooled) == Execute(RunUntilFailure(t, ks[..i], s, pooled).tree, ks[i], s, pooled)
    decreases |ks|
  {
    var m := Execute(t, ks[0], s, pooled);
    if m.ok {
      var j := GivesUpAtFirst(m.tree, ks[1..], s, pooled);
      i := j + 1;
      assert ks[..i][0] == ks[0] && ks[..i][1..] == ks[1..][..j];
    } else {
      i := 0;
    }
  }

  /** So syncLocal under overwrite, where the tasks do not interfere, returns true and matches every source path,
      whatever the order of the plan. */
  lemma SyncLocalMatches(t: Tree, a: Attributes, srcDir: Path, destDir: Path, order: seq<Task>,
                         files: set<Path>, dirs: set<Path>, pooled: bool)
    requires Separate(t, Due(t, a, srcDir, destDir), files, dirs)
    requires NoRepeats(order) && AsSet(order) == Due(t, a, srcDir, destDir)
    ensures
      var r := RunUntilFailure(t, order, Overwrite, pooled);
      r.ok && forall p :: p in Below(t, Inside(srcDir)) ==>
        srcDir <= p && Matches(t, a, p, r.tree, Image(srcDir, destDir, p))
  {
    LocalSyncMatches(t, a, srcDir, destDir, order, files, dirs, pooled);
    GivingUpIff(t, order, Overwrite, pooled);
  }

  // ---------- the same tasks again ----------

  /** Running the same tasks a second time, in any order, changes nothing. */
  lemma RunningAgainChangesNothing(t: Tree, ks: seq<Task>, again: seq<Task>, files: set<Path>, dirs: set<Path>,
                                   pooled: bool)
    requires Separate(t, AsSet(ks), files, dirs)
    requires NoRepeats(ks) && NoRepeats(again) && AsSet(ks) == AsSet(again)
    ensures
      var once := ExecuteAll(t, ks, Overwrite, pooled).tree;
      ExecuteAll(once, again, Overwrite, pooled) == Made(once, true)
  {
    var all := AsSet(ks);
    AnyOrderSameTree(t, ks, ks, files, dirs, pooled);
    var u := Final(t, all);
    FinalMatchesSources(t, all, files, dirs);
    FinalFits(t, all, files, dirs);
    SourcesKept(t, all, files, dirs);
    assert Separate(u, all, files, dirs) by {
      forall k | k in all
        ensures PlacedTask(u, k, files, dirs)
      {
        assert PlacedTask(t, k, files, dirs);
      }
    }
    AnyOrderSameTree(u, again, again, files, dirs, pooled);
    FinalTwice(t, all, files, dirs);
  }

  lemma SourcesKept(t: Tree, ks: set<Task>, files: set<Path>, dirs: set<Path>)
    requires Separate(t, ks, files, dirs)
    ensures forall k :: k in ks ==> k.isDir || IsFile(t, k.src)
    ensures forall k :: k in ks && !k.isDir ==> k.src in Final(t, ks) && Final(t, ks)[k.src] == t[k.src]
  {
    FinalMatchesSources(t, ks, files, dirs);
    FinalFits(t, ks, files, dirs);
    forall k | k in ks && !k.isDir
      ensures k.src in Final(t, ks) && Final(t, ks)[k.src] == t[k.src]
    {
      assert PlacedTask(t, k, files, dirs);
      assert k.src !in files && k.src !in dirs;
    }
  }

  lemma FinalTwice(t: Tree, ks: set<Task>, files: set<Path>, dirs: set<Path>)
    requires Separate(t, ks, files, dirs)
    ensures forall k :: k in ks ==> k.isDir || IsFile(t, k.src)
    ensures forall k :: k in ks ==> k.isDir || IsFile(Final(t, ks), k.src)
    ensures Final(Final(t, ks), ks) == Final(t, ks)
  {
    SourcesKept(t, ks, files, dirs);
    var u := Final(t, ks);
    var v := Final(u, ks);
    assert v.Keys == u.Keys;
    forall p | p in v
      ensures v[p] == u[p]
    {
      if TaskAt(ks, p).Some? {
        var k := TaskAt(ks, p).value;
        assert k in ks;
        assert Result(u, k) == Result(t, k);
      }
    }
  }
}
