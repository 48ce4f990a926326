/** The two recursive walks over a directory: the metadata map of the local engine and the RPC listing.
    readdir returns the entries of a directory in no particular order. */
module Listing {
  import opened Bytes
  import opened FileTree
  import opened ProtoMessages
  import Planner

  /** What stat(2) and the digest report beyond what the tree holds. The root of the tree, which is not one
      of its paths, is the empty path. */
  datatype Attributes = Attributes(
    mtime: Path -> int, ctime: Path -> int, dirSize: Path -> int, rootMode: nat, md5: seq<byte> -> seq<byte>)

  /** A directory as the walks name it: its path and a slash, or nothing for the root of a listing. */
  type Prefix = Path

  /** The paths of t that lie anywhere below the directory. */
  function Below(t: Tree, d: Prefix): set<Path> {
    set p | p in t && d <= p && p != d
  }

  predicate IsChild(d: Prefix, p: Path) {
    d <= p && p != d && forall i :: |d| <= i < |p| ==> p[i] != SLASH
  }

  /** What readdir lists, "." and ".." aside. */
  function Children(t: Tree, d: Prefix): set<Path> {
    set p | p in t && IsChild(d, p)
  }

  function Inside(p: Path): Prefix {
    p + [SLASH]
  }

  /** Every path below d goes through directories of t, with nonempty names. */
  ghost predicate Closed(t: Tree, d: Prefix) {
    forall p :: p in Below(t, d) ==> GoesThrough(t, d, p)
  }

  ghost predicate GoesThrough(t: Tree, d: Prefix, p: Path) {
    forall i :: |d| <= i < |p| && p[i] == SLASH ==>
      |d| < i && i + 1 < |p| && p[i + 1] != SLASH && p[..i] in t && t[p[..i]].Dir?
  }

  lemma ClosedInside(t: Tree, d: Prefix, c: Path)
    requires Closed(t, d) && c in Children(t, d)
    ensures Closed(t, Inside(c))
    ensures Below(t, Inside(c)) <= Below(t, d) - {c}
  {
    forall p | p in Below(t, Inside(c))
      ensures p in Below(t, d) - {c} && GoesThrough(t, Inside(c), p)
    {
      assert Inside(c)[..|c|] == c && p[..|c|] == c && p[|c|] == SLASH;
      assert p in Below(t, d);
      assert GoesThrough(t, d, p);
    }
  }

  /** The beginning of p up to its first slash after d: the child of d that p is or lies inside. */
  function First(d: Prefix, p: Path): Path
    requires |d| <= |p|
  {
    p[..NextSlash(p, |d|)]
  }

  lemma BelowHasFirst(t: Tree, d: Prefix, p: Path)
    requires Closed(t, d) && p in Below(t, d)
    ensures First(d, p) in Children(t, d)
    ensures p != First(d, p) ==> t[First(d, p)].Dir? && p in Below(t, Inside(First(d, p)))
  {
    var i := NextSlash(p, |d|);
    if i == |p| {
      assert p[..i] == p;
    } else {
      assert GoesThrough(t, d, p);
      assert p[..i + 1] == Inside(p[..i]);
    }
  }

  /** The walk's share of child c: c itself and, if it is a directory, what lies inside. */
  function Share(t: Tree, c: Path): set<Path>
    requires c in t
  {
    {c} + if t[c].Dir? then Below(t, Inside(c)) else {}
  }

  /** The shares of the children in done. */
  function Covered(t: Tree, d: Prefix, done: set<Path>): set<Path> {
    set p | p in Below(t, d) && First(d, p) in done
  }

  lemma ShareHasFirst(t: Tree, d: Prefix, c: Path, p: Path)
    requires Closed(t, d) && c in Children(t, d) && p in Share(t, c)
    ensures p in Below(t, d) && First(d, p) == c
  {
    if p == c {
      assert NextSlash(p, |d|) == |p| && p[..|p|] == p;
    } else {
      ClosedInside(t, d, c);
      assert p[|c|] == Inside(c)[|c|] == SLASH && p[..|c|] == Inside(c)[..|c|] == c;
      assert forall i :: |d| <= i < |c| ==> p[i] == c[i];
      assert NextSlash(p, |d|) == |c|;
    }
  }

  lemma CoveredMore(t: Tree, d: Prefix, done: set<Path>, c: Path)
    requires Closed(t, d) && c in Children(t, d) && c !in done
    ensures Covered(t, d, done + {c}) == Covered(t, d, done) + Share(t, c)
    ensures Covered(t, d, done) !! Share(t, c)
  {
    forall p | p in Share(t, c)
      ensures p in Below(t, d) && First(d, p) == c
    {
      ShareHasFirst(t, d, c, p);
    }
    forall p | p in Below(t, d) && First(d, p) == c
      ensures p in Share(t, c)
    {
      BelowHasFirst(t, d, p);
    }
  }

  lemma CoveredByAll(t: Tree, d: Prefix)
    requires Closed(t, d)
    ensures Covered(t, d, Children(t, d)) == Below(t, d)
  {
    forall p | p in Below(t, d)
      ensures First(d, p) in Children(t, d)
    {
      BelowHasFirst(t, d, p);
    }
  }

  // ---------- the metadata map ----------

  function MetaOf(t: Tree, a: Attributes, p: Path): Planner.Meta
    requires p in t
  {
    match t[p]
    case File(data, mode) => Planner.Meta(true, false, |data|, a.mtime(p), mode, a.md5(data))
    case Dir(mode) => Planner.Meta(false, true, a.dirSize(p), a.mtime(p), mode, [])
  }

  function MetaMap(t: Tree, a: Attributes, s: set<Path>): map<Path, Planner.Meta> {
    map p | p in s && p in t :: MetaOf(t, a, p)
  }

  /** One entry per descendant. */
  function Metadata(t: Tree, a: Attributes, d: Prefix): map<Path, Planner.Meta> {
    MetaMap(t, a, Below(t, d))
  }

  lemma MetaMapUnion(t: Tree, a: Attributes, s: set<Path>, r: set<Path>)
    ensures MetaMap(t, a, s + r) == MetaMap(t, a, s) + MetaMap(t, a, r)
  {
  }

  /** collectMetadata: list the directory, record every entry, descend into the directories. */
  method CollectMetadata(t: Tree, a: Attributes, d: Prefix) returns (m: map<Path, Planner.Meta>)
    requires Closed(t, d)
    ensures m == Metadata(t, a, d)
    decreases |Below(t, d)|, 1
  {
    m := map[];
    var left := Children(t, d);
    while left != {}
      invariant left <= Children(t, d)
      invariant m == MetaMap(t, a, Covered(t, d, Children(t, d) - left))
      decreases |left|
    {
      var c :| c in left;
      var share := CollectChild(t, a, d, c);
      CoveredMore(t, d, Children(t, d) - left, c);
      MetaMapUnion(t, a, Covered(t, d, Children(t, d) - left), Share(t, c));
      assert Children(t, d) - (left - {c}) == Children(t, d) - left + {c};
      m, left := m + share, left - {c};
    }
    assert Children(t, d) - {} == Children(t, d);
    CoveredByAll(t, d);
  }

  /** One turn of that loop. */
  method CollectChild(t: Tree, a: Attributes, d: Prefix, c: Path) returns (m: map<Path, Planner.Meta>)
    requires Closed(t, d) && c in Children(t, d)
    ensures m == MetaMap(t, a, Share(t, c))
    decreases |Below(t, d)|, 0
  {
    m := map[c := MetaOf(t, a, c)];
    if t[c].Dir? {
      ClosedInside(t, d, c);
      Smaller(Below(t, Inside(c)), Below(t, d), c);
      var sub := CollectMetadata(t, a, Inside(c));
      m := m + sub;
    }
  }

  lemma Smaller(a: set<Path>, b: set<Path>, x: Path)
    requires a <= b - {x} && x in b
    ensures |a| < |b|
  {
    SubsetSize(a, b - {x});
  }

  lemma {:induction false} SubsetSize(a: set<Path>, b: set<Path>)
    requires a <= b
    ensures |a| <= |b|
    decreases |a|
  {
    if a != {} {
      var x :| x in a;
      SubsetSize(a - {x}, b - {x});
    }
  }

  // ---------- the RPC listing ----------

  function BaseName(p: Path): Path {
    p[LastSlash(p) + 1..]
  }

  function EntryOf(t: Tree, a: Attributes, p: Path): FileEntry
    requires p in t
  {
    match t[p]
    case File(data, mode) => FileEntry(BaseName(p), p, false, |data|, a.mtime(p), mode)
    case Dir(mode) => FileEntry(BaseName(p), p, true, a.dirSize(p), a.mtime(p), mode)
  }

  /** What readdir returns for each directory, in its own order: every child exactly once. */
  type Readdir = Prefix -> seq<Path>

  ghost predicate Lists(t: Tree, readdir: Readdir, d: Prefix) {
    Distinct(readdir(d)) && Elements(readdir(d)) == Children(t, d)
  }

  ghost predicate ListsAll(t: Tree, readdir: Readdir) {
    forall d :: Lists(t, readdir, d)
  }

  predicate Distinct(ps: seq<Path>) {
    forall i, j :: 0 <= i < j < |ps| ==> ps[i] != ps[j]
  }

  function Elements(ps: seq<Path>): set<Path> {
    set p | p in ps
  }

  /** The order in which listDirectory meets the paths below d, from its k-th entry on. */
  ghost function Walk(t: Tree, readdir: Readdir, d: Prefix, k: nat, recursive: bool): seq<Path>
    requires Closed(t, d) && ListsAll(t, readdir) && k <= |readdir(d)|
    decreases |Below(t, d)|, |readdir(d)| - k
  {
    if k == |readdir(d)| then []
    else
      var c := readdir(d)[k];
      EntryIsChild(t, readdir, d, k);
      [c] + WalkInside(t, readdir, d, c, recursive) + Walk(t, readdir, d, k + 1, recursive)
  }

  ghost function WalkInside(t: Tree, readdir: Readdir, d: Prefix, c: Path, recursive: bool): seq<Path>
    requires Closed(t, d) && ListsAll(t, readdir) && c in Children(t, d)
    decreases |Below(t, d)|, 0
  {
    if recursive && t[c].Dir? then
      ClosedInside(t, d, c);
      Smaller(Below(t, Inside(c)), Below(t, d), c);
      Walk(t, readdir, Inside(c), 0, recursive)
    else []
  }

  lemma EntryIsChild(t: Tree, readdir: Readdir, d: Prefix, k: nat)
    requires ListsAll(t, readdir) && k < |readdir(d)|
    ensures readdir(d)[k] in Children(t, d)
  {
    assert Lists(t, readdir, d);
    assert readdir(d)[k] in Elements(readdir(d));
  }

  // ---------- each descendant once, parents first ----------

  ghost predicate Before(ps: seq<Path>, i: nat, p: Path) {
    exists j :: 0 <= j < i && j < |ps| && ps[j] == p
  }

  /** Every path that is not a child of d comes after the directory it lies in. */
  ghost predicate ParentsFirst(d: Prefix, ps: seq<Path>) {
    forall i: nat :: i < |ps| ==> IsChild(d, ps[i]) || Before(ps, i, Parent(ps[i]))
  }

  lemma ParentOfChild(c: Path, p: Path)
    requires IsChild(Inside(c), p)
    ensures Parent(p) == c
  {
    assert p[|c|] == Inside(c)[|c|] == SLASH;
    assert LastSlash(p) == |c|;
    assert p[..|c|] == Inside(c)[..|c|] == c;
  }

  lemma ParentsFirstChild(d: Prefix, c: Path, ps: seq<Path>)
    requires IsChild(d, c) && ParentsFirst(Inside(c), ps)
    ensures ParentsFirst(d, [c] + ps)
  {
    var qs := [c] + ps;
    forall i: nat | i < |qs|
      ensures IsChild(d, qs[i]) || Before(qs, i, Parent(qs[i]))
    {
      if i > 0 {
        var p := ps[i - 1];
        assert qs[i] == p;
        if IsChild(Inside(c), p) {
          ParentOfChild(c, p);
          assert qs[0] == c;
        } else {
          assert [c] + ps + [] == qs;
          BeforeWithin([c], ps, [], i - 1, Parent(p));
        }
      }
    }
  }

  lemma ParentsFirstAppend(d: Prefix, x: seq<Path>, y: seq<Path>)
    requires ParentsFirst(d, x) && ParentsFirst(d, y)
    ensures ParentsFirst(d, x + y)
  {
    var qs := x + y;
    assert [] + x + y == qs && qs + [] == qs;
    forall i: nat | i < |qs|
      ensures IsChild(d, qs[i]) || Before(qs, i, Parent(qs[i]))
    {
      if !IsChild(d, qs[i]) {
        if i < |x| {
          BeforeWithin([], x, y, i, Parent(x[i]));
        } else {
          BeforeWithin(x, y, [], i - |x|, Parent(y[i - |x|]));
        }
      }
    }
  }

  lemma BeforeWithin(a: seq<Path>, b: seq<Path>, c: seq<Path>, i: nat, p: Path)
    requires Before(b, i, p)
    ensures Before(a + b + c, |a| + i, p)
  {
    var j :| 0 <= j < i && j < |b| && b[j] == p;
    assert (a + b + c)[|a| + j] == p;
  }

  lemma DistinctAppend(a: seq<Path>, b: seq<Path>)
    requires Distinct(a) && Distinct(b) && Elements(a) !! Elements(b)
    ensures Distinct(a + b) && Elements(a + b) == Elements(a) + Elements(b)
  {
    var ps := a + b;
    forall i, j | 0 <= i < j < |ps|
      ensures ps[i] != ps[j]
    {
      if i < |a| <= j {
        assert ps[i] in Elements(a) && ps[j] in Elements(b);
      }
    }
  }

  /** ps holds exactly the given paths, each once, parents first. */
  ghost predicate Ordered(d: Prefix, ps: seq<Path>, paths: set<Path>) {
    Distinct(ps) && ParentsFirst(d, ps) && Elements(ps) == paths
  }

  lemma OrderedChild(d: Prefix, c: Path, ps: seq<Path>, paths: set<Path>)
    requires IsChild(d, c) && c !in paths && Ordered(Inside(c), ps, paths)
    ensures Ordered(d, [c] + ps, {c} + paths)
  {
    ParentsFirstChild(d, c, ps);
    assert Elements([c]) == {c};
    DistinctAppend([c], ps);
  }

  lemma OrderedAppend(d: Prefix, x: seq<Path>, y: seq<Path>, px: set<Path>, py: set<Path>)
    requires Ordered(d, x, px) && Ordered(d, y, py) && px !! py
    ensures Ordered(d, x + y, px + py)
  {
    ParentsFirstAppend(d, x, y);
    DistinctAppend(x, y);
  }

  lemma OrderedNothing(d: Prefix)
    ensures Ordered(d, [], {})
  {
    assert Elements([]) == {};
  }

  /** What the walk meets once it has dealt with the children in done. */
  function Visited(t: Tree, d: Prefix, done: set<Path>, recursive: bool): set<Path> {
    if recursive then Covered(t, d, done) else done
  }

  lemma VisitedMore(t: Tree, d: Prefix, done: set<Path>, c: Path, recursive: bool)
    requires Closed(t, d) && c in Children(t, d) && c !in done
    ensures
      var share := if recursive then Share(t, c) else {c};
      && Visited(t, d, {c} + done, recursive) == share + Visited(t, d, done, recursive)
      && share !! Visited(t, d, done, recursive)
  {
    CoveredMore(t, d, done, c);
    assert done + {c} == {c} + done;
  }

  lemma {:induction false} ShareOrdered(t: Tree, readdir: Readdir, d: Prefix, c: Path, recursive: bool)
    requires Closed(t, d) && ListsAll(t, readdir) && c in Children(t, d)
    ensures Ordered(d, [c] + WalkInside(t, readdir, d, c, recursive), if recursive then Share(t, c) else {c})
    decreases |Below(t, d)|, 0
  {
    ClosedInside(t, d, c);
    if recursive && t[c].Dir? {
      Smaller(Below(t, Inside(c)), Below(t, d), c);
      WalkOrdered(t, readdir, Inside(c), recursive);
      OrderedChild(d, c, Walk(t, readdir, Inside(c), 0, recursive), Below(t, Inside(c)));
    } else {
      OrderedNothing(Inside(c));
      OrderedChild(d, c, [], {});
      assert {c} + {} == {c};
    }
  }

  lemma {:induction false} WalkFromOrdered(t: Tree, readdir: Readdir, d: Prefix, k: nat, recursive: bool)
    requires Closed(t, d) && ListsAll(t, readdir) && k <= |readdir(d)|
    ensures Ordered(d, Walk(t, readdir, d, k, recursive), Visited(t, d, Elements(readdir(d)[k..]), recursive))
    decreases |Below(t, d)|, 1, |readdir(d)| - k
  {
    if k == |readdir(d)| {
      OrderedNothing(d);
      assert Elements(readdir(d)[k..]) == {};
    } else {
      var c := readdir(d)[k];
      EntryIsChild(t, readdir, d, k);
      ShareOrdered(t, readdir, d, c, recursive);
      WalkFromOrdered(t, readdir, d, k + 1, recursive);
      TailElements(t, readdir, d, k);
      var done := Elements(readdir(d)[k + 1..]);
      VisitedMore(t, d, done, c, recursive);
      OrderedAppend(d, [c] + WalkInside(t, readdir, d, c, recursive), Walk(t, readdir, d, k + 1, recursive),
                    if recursive then Share(t, c) else {c}, Visited(t, d, done, recursive));
    }
  }

  lemma TailElements(t: Tree, readdir: Readdir, d: Prefix, k: nat)
    requires ListsAll(t, readdir) && k < |readdir(d)|
    ensures Elements(readdir(d)[k..]) == {readdir(d)[k]} + Elements(readdir(d)[k + 1..])
    ensures readdir(d)[k] !in Elements(readdir(d)[k + 1..])
  {
    assert Lists(t, readdir, d);
    assert readdir(d)[k..] == [readdir(d)[k]] + readdir(d)[k + 1..];
  }

  /** A recursive walk meets every descendant exactly once and every directory before what lies in it; one
      that is not recursive meets exactly the children. */
  lemma WalkOrdered(t: Tree, readdir: Readdir, d: Prefix, recursive: bool)
    requires Closed(t, d) && ListsAll(t, readdir)
    ensures Ordered(d, Walk(t, readdir, d, 0, recursive), if recursive then Below(t, d) else Children(t, d))
    decreases |Below(t, d)|, 2
  {
    assert Lists(t, readdir, d);
    assert readdir(d)[0..] == readdir(d);
    WalkFromOrdered(t, readdir, d, 0, recursive);
    CoveredByAll(t, d);
  }

  // ---------- the listing under construction ----------

  function Entries(t: Tree, a: Attributes, ps: seq<Path>): (es: seq<FileEntry>)
    requires forall p :: p in ps ==> p in t
    ensures |es| == |ps|
  {
    seq(|ps|, i requires 0 <= i < |ps| => EntryOf(t, a, ps[i]))
  }

  lemma EntriesAppend(t: Tree, a: Attributes, x: seq<Path>, y: seq<Path>)
    requires (forall p :: p in x ==> p in t) && (forall p :: p in y ==> p in t)
    ensures Entries(t, a, x + y) == Entries(t, a, x) + Entries(t, a, y)
  {
  }

  lemma WalkInTree(t: Tree, readdir: Readdir, d: Prefix, k: nat, recursive: bool)
    requires Closed(t, d) && ListsAll(t, readdir) && k <= |readdir(d)|
    ensures forall p :: p in Walk(t, readdir, d, k, recursive) ==> p in t
  {
    WalkFromOrdered(t, readdir, d, k, recursive);
    assert Lists(t, readdir, d);
    forall p | p in Walk(t, readdir, d, k, recursive)
      ensures p in t
    {
      assert p in Elements(Walk(t, readdir, d, k, recursive));
      assert p in Visited(t, d, Elements(readdir(d)[k..]), recursive);
      assert !recursive ==> p in Elements(readdir(d));
    }
  }

  lemma EntriesThree(t: Tree, a: Attributes, c: Path, inside: seq<Path>, next: seq<Path>)
    requires c in t && (forall p :: p in inside ==> p in t) && (forall p :: p in next ==> p in t)
    ensures forall p :: p in [c] + inside + next ==> p in t
    ensures Entries(t, a, [c] + inside + next) == [EntryOf(t, a, c)] + Entries(t, a, inside) + Entries(t, a, next)
  {
    var front := [c] + inside;
    assert forall p :: p in front ==> p in t;
    assert Entries(t, a, front) == [EntryOf(t, a, c)] + Entries(t, a, inside) by {
      EntriesAppend(t, a, [c], inside);
      assert Entries(t, a, [c]) == [EntryOf(t, a, c)];
    }
    EntriesAppend(t, a, front, next);
  }

  lemma InsideInTree(t: Tree, readdir: Readdir, d: Prefix, c: Path, recursive: bool)
    requires Closed(t, d) && ListsAll(t, readdir) && c in Children(t, d)
    ensures forall p :: p in WalkInside(t, readdir, d, c, recursive) ==> p in t
  {
    if recursive && t[c].Dir? {
      ClosedInside(t, d, c);
      WalkInTree(t, readdir, Inside(c), 0, recursive);
    }
  }

  lemma WalkStep(t: Tree, a: Attributes, readdir: Readdir, d: Prefix, k: nat, recursive: bool, c: Path)
    requires Closed(t, d) && ListsAll(t, readdir) && k < |readdir(d)| && c == readdir(d)[k]
    ensures c in Children(t, d)
    ensures forall p :: p in Walk(t, readdir, d, k, recursive) ==> p in t
    ensures forall p :: p in Walk(t, readdir, d, k + 1, recursive) ==> p in t
    ensures forall p :: p in WalkInside(t, readdir, d, c, recursive) ==> p in t
    ensures Entries(t, a, Walk(t, readdir, d, k, recursive)) ==
            [EntryOf(t, a, c)] + Entries(t, a, WalkInside(t, readdir, d, c, recursive))
            + Entries(t, a, Walk(t, readdir, d, k + 1, recursive))
  {
    EntryIsChild(t, readdir, d, k);
    WalkInTree(t, readdir, d, k + 1, recursive);
    InsideInTree(t, readdir, d, c, recursive);
    var inside, next := WalkInside(t, readdir, d, c, recursive), Walk(t, readdir, d, k + 1, recursive);
    assert Walk(t, readdir, d, k, recursive) == [c] + inside + next;
    EntriesThree(t, a, c, inside, next);
  }

  class Builder {
    var files: seq<FileEntry>
    var totalCount: int

    constructor ()
      ensures files == [] && totalCount == 0
    {
      files, totalCount := [], 0;
    }

    /** listDirectory of the RPC server: an entry is appended and the count bumped for every path of the
        walk, in its order. The count is cut to 32 bits when the response is built. */
    method ListDirectory(t: Tree, a: Attributes, readdir: Readdir, d: Prefix, recursive: bool)
      requires Closed(t, d) && ListsAll(t, readdir)
      modifies this
      ensures forall p :: p in Walk(t, readdir, d, 0, recursive) ==> p in t
      ensures files == old(files) + Entries(t, a, Walk(t, readdir, d, 0, recursive))
      ensures totalCount == old(totalCount) + |Walk(t, readdir, d, 0, recursive)|
      decreases |Below(t, d)|
    {
      var k := 0;
      WalkInTree(t, readdir, d, 0, recursive);
      ghost var left := Entries(t, a, Walk(t, readdir, d, 0, recursive));
      ghost var all := files + left;
      while k < |readdir(d)|
        invariant 0 <= k <= |readdir(d)|
        invariant forall p :: p in Walk(t, readdir, d, k, recursive) ==> p in t
        invariant left == Entries(t, a, Walk(t, readdir, d, k, recursive))
        invariant files + left == all && totalCount + |left| == old(totalCount) + |all| - |old(files)|
      {
        var c := readdir(d)[k];
        WalkStep(t, a, readdir, d, k, recursive, c);
        ghost var inside := Entries(t, a, WalkInside(t, readdir, d, c, recursive));
        ghost var next := Entries(t, a, Walk(t, readdir, d, k + 1, recursive));
        Regroup(files, [EntryOf(t, a, c)], inside, next);
        files, totalCount := files + [EntryOf(t, a, c)], totalCount + 1;
        if recursive && t[c].Dir? {
          ClosedInside(t, d, c);
          Smaller(Below(t, Inside(c)), Below(t, d), c);
          ListDirectory(t, a, readdir, Inside(c), recursive);
        } else {
          assert inside == [];
        }
        left := next;
        k := k + 1;
      }
    }
  }

  lemma Regroup(x: seq<FileEntry>, y: seq<FileEntry>, z: seq<FileEntry>, w: seq<FileEntry>)
    ensures x + (y + z + w) == x + y + z + w
    ensures x + y + [] == x + y
  {
  }
}
