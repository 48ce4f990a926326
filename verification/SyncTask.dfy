/** One task on any tree: when the server can take it in, and what it then leaves, whatever is in the way. */
module SyncTask {
  import opened Bytes
  import opened FileTree
  import opened SyncWire
  import opened SyncServer

  /** The offset is positive and is the length of the file: what is there is kept. */
  predicate Continues(t: Tree, p: Path, resume: int) {
    resume > 0 && IsFile(t, p) && |t[p].data| == resume
  }

  /** The bytes that are wanted behind the offset: all of them when a positive offset does not match. */
  function Wanted(t: Tree, p: Path, resume: int, size: int): nat {
    Need(if resume > 0 && !Continues(t, p, resume) then 0 else resume, size)
  }

  function Kept(t: Tree, p: Path, resume: int): seq<byte> {
    if Continues(t, p, resume) then t[p].data else []
  }

  lemma OpenIff(t: Tree, p: Path, truncate: bool)
    requires Parent(p) == [] || Parent(p) in t
    ensures Open(t, p, truncate).Some? <==> HasPlace(t, p)
    ensures HasPlace(t, p) ==>
      Open(t, p, truncate).value ==
      t[p := if p in t then File(if truncate then [] else t[p].data, t[p].mode) else File([], DEFAULT_FILE_MODE)]
  {
    if p in t && t[p].File? && !truncate {
      assert t[p := File(t[p].data, t[p].mode)] == t;
    }
  }

  /** receiveFileData on any tree that has the file's directory. */
  lemma FileDataResult(w: World, p: Path, resume: int, size: int)
    requires Parent(p) == [] || Parent(p) in w.tree
    ensures
      var r, need := ReceiveFileData(w, p, resume, size), Wanted(w.tree, p, resume, size);
      && (r.ok <==> HasPlace(w.tree, p) && |w.bytes| >= need && w.room >= need)
      && (r.ok ==> && IsFile(r.world.tree, p)
                   && r.world == World(w.tree[p := r.world.tree[p]], w.bytes[need..], w.ending, w.room - need)
                   && r.world.tree[p].data == Kept(w.tree, p, resume) + w.bytes[..need])
  {
    OpenIff(w.tree, p, resume <= 0);
    if HasPlace(w.tree, p) {
      var t := Open(w.tree, p, resume <= 0).value;
      if resume > 0 && |t[p].data| != resume {
        ReceiveLoopResult(w.(tree := SetData(t, p, [])), p, 0, size);
      } else {
        ReceiveLoopResult(w.(tree := t), p, resume, size);
      }
    }
  }

  /** What becomes of a file task, on any tree and any bytes: it succeeds if and only if its offset arrives, no
      directory above it is blocked by a regular file, the file has a place, and the wanted bytes arrive and
      fit. Then the missing directories are there and the file holds what was kept and the wanted bytes, with
      the task's mode, and nothing else has changed. */
  lemma FileTaskResult(w: World, base: Path, t: TaskMeta)
    requires !t.isDir
    ensures
      var r, p := ReceiveTask(w, base, t), base + t.dest;
      if |w.bytes| < 8 then r == Received(false, w.(bytes := []))
      else
        var resume, rest := DecodeSigned(w.bytes[..8]), w.bytes[8..];
        var need := Wanted(w.tree, p, resume, t.size);
        && (r.ok <==> && (forall q :: q in Ancestors(p) ==> !Blocked(w.tree, q)) && HasPlace(w.tree, p)
                      && |rest| >= need && w.room >= need)
        && (r.ok ==>
              r.world == World(WithDirs(w.tree, Ancestors(p), DEFAULT_DIR_MODE)
                                 [p := File(Kept(w.tree, p, resume) + rest[..need], t.mode)],
                               rest[need..], w.ending, w.room - need))
  {
    if |w.bytes| >= 8 {
      var p, resume := base + t.dest, DecodeSigned(w.bytes[..8]);
      FileResult(w.(bytes := w.bytes[8..]), p, t, resume);
    }
  }

  lemma FileResult(w: World, p: Path, t: TaskMeta, resume: int)
    ensures
      var r, need := ReceiveFile(w, p, t, resume), Wanted(w.tree, p, resume, t.size);
      && (r.ok <==> && (forall q :: q in Ancestors(p) ==> !Blocked(w.tree, q)) && HasPlace(w.tree, p)
                    && |w.bytes| >= need && w.room >= need)
      && (r.ok ==>
            r.world == World(WithDirs(w.tree, Ancestors(p), DEFAULT_DIR_MODE)
                               [p := File(Kept(w.tree, p, resume) + w.bytes[..need], t.mode)],
                             w.bytes[need..], w.ending, w.room - need))
  {
    CreateDirectoryResult(w.tree, Parent(p), DEFAULT_DIR_MODE);
    ParentChain(p);
    var m := CreateDirectory(w.tree, Parent(p), DEFAULT_DIR_MODE);
    if m.ok {
      PlaceStays(w.tree, p, resume, t.size);
      FileDataResult(w.(tree := m.tree), p, resume, t.size);
    }
  }

  /** Making the directories above a file does not touch the file. */
  lemma PlaceStays(t: Tree, p: Path, resume: int, size: int)
    ensures
      var t' := WithDirs(t, Ancestors(p), DEFAULT_DIR_MODE);
      && (Parent(p) == [] || Parent(p) in t')
      && (HasPlace(t', p) <==> HasPlace(t, p))
      && Wanted(t', p, resume, size) == Wanted(t, p, resume, size) && Kept(t', p, resume) == Kept(t, p, resume)
  {
    ParentChain(p);
    assert p !in Ancestors(p);
    assert Parent(p) != [] ==> Parent(p) in Chain(Parent(p));
  }

  /** A directory task. */
  lemma DirTaskResult(w: World, base: Path, t: TaskMeta)
    requires t.isDir
    ensures
      var r, p := ReceiveTask(w, base, t), base + t.dest;
      if |w.bytes| < 8 then r == Received(false, w.(bytes := []))
      else
        && (r.ok <==> forall q :: q in Chain(p) ==> !Blocked(w.tree, q))
        && (r.ok ==> r.world == w.(tree := WithDirs(w.tree, Chain(p), t.mode), bytes := w.bytes[8..]))
  {
    CreateDirectoryResult(w.tree, base + t.dest, t.mode);
  }
}
