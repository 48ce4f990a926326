/** A file system as a finite map from path strings to nodes, with the recursive directory creation
    that both the local engine and the server use. */
module FileTree {
  import opened Bytes

  datatype Node = File(data: seq<byte>, mode: nat) | Dir(mode: nat)

  type Tree = map<Path, Node>

  predicate IsFile(t: Tree, p: Path) {
    p in t && t[p].File?
  }

  const DEFAULT_DIR_MODE: nat := 0x1ED  // 0755
  const DEFAULT_FILE_MODE: nat := 0x1A4  // 0644

  /** The proper prefixes of p that end just before a slash: the directories that p lies in. */
  function Ancestors(p: Path): set<Path> {
    set i | 0 < i < |p| && p[i] == SLASH :: p[..i]
  }

  function OneLevel(p: Path): set<Path> {
    if p == [] then {} else {p}
  }

  /** p and its ancestors; the empty string names no directory. */
  function Chain(p: Path): set<Path> {
    Ancestors(p) + OneLevel(p)
  }

  /** The innermost directory that p lies in; [] when that is the root or the working directory. */
  function Parent(p: Path): Path {
    var i := LastSlash(p);
    if i < 0 then [] else p[..i]
  }

  /** std::string::find_last_of('/'), with -1 for npos. */
  function LastSlash(p: Path): (i: int)
    ensures -1 <= i < |p|
    ensures i >= 0 ==> p[i] == SLASH
    ensures forall j :: i < j < |p| ==> p[j] != SLASH
  {
    if p == [] then -1 else if p[|p| - 1] == SLASH then |p| - 1 else LastSlash(p[..|p| - 1])
  }

  /** std::string::find('/', pos), with |p| for npos. */
  function NextSlash(p: Path, pos: nat): (i: nat)
    requires pos <= |p|
    ensures pos <= i <= |p|
    ensures i < |p| ==> p[i] == SLASH
    ensures forall j :: pos <= j < i ==> p[j] != SLASH
    decreases |p| - pos
  {
    if pos == |p| || p[pos] == SLASH then pos else NextSlash(p, pos + 1)
  }

  /** A tree after an operation that may have failed part of the way. */
  datatype Made = Made(tree: Tree, ok: bool)

  /** mkdir(2): fails when the path exists or when its parent is a regular file. */
  function Mkdir(t: Tree, p: Path, mode: nat): Made {
    var up := Parent(p);
    if p in t || (up in t && t[up].File?) then Made(t, false) else Made(t[p := Dir(mode)], true)
  }

  /** One level: nothing to do for the empty string or for a path that stat(2) finds. */
  function EnsureDirectory(t: Tree, p: Path, mode: nat): Made {
    if p == [] || p in t then Made(t, true) else Mkdir(t, p, mode)
  }

  function CreateFrom(t: Tree, p: Path, pos: nat, mode: nat): Made
    requires pos <= |p|
    decreases |p| - pos
  {
    var next := NextSlash(p, pos);
    if next == |p| then EnsureDirectory(t, p, mode)
    else
      var m := EnsureDirectory(t, p[..next], mode);
      if m.ok then CreateFrom(m.tree, p, next + 1, mode) else m
  }

  function CreateDirectory(t: Tree, p: Path, mode: nat): Made {
    CreateFrom(t, p, 0, mode)
  }

  /** t with a directory at every path of s that t lacks. */
  function WithDirs(t: Tree, s: set<Path>, mode: nat): Tree {
    t + map q | q in s && q !in t :: Dir(mode)
  }

  ghost predicate NoFileAt(t: Tree, s: set<Path>) {
    forall q :: q in s && q in t ==> t[q].Dir?
  }

  /** Level-by-level creation, as the source's loop does it. */
  method CreateDirectoryByLevels(t: Tree, p: Path, mode: nat) returns (r: Made)
    ensures r == CreateDirectory(t, p, mode)
  {
    var tree, pos := t, 0;
    var next := NextSlash(p, 0);
    while next != |p|
      invariant 0 <= pos <= next <= |p| && next == NextSlash(p, pos)
      invariant CreateDirectory(t, p, mode) == CreateFrom(tree, p, pos, mode)
      decreases |p| - pos
    {
      r := EnsureDirectory(tree, p[..next], mode);
      if !r.ok {
        return;
      }
      tree, pos := r.tree, next + 1;
      next := NextSlash(p, pos);
    }
    r := EnsureDirectory(tree, p, mode);
  }

  function ChainFrom(p: Path, pos: nat): set<Path> {
    (set i | pos <= i < |p| && 0 < i && p[i] == SLASH :: p[..i]) + OneLevel(p)
  }

  lemma ParentIsAncestor(p: Path, i: nat)
    requires i <= |p|
    ensures Parent(p[..i]) == [] || Parent(p[..i]) in Ancestors(p)
  {
    var j := LastSlash(p[..i]);
    if 0 < j {
      assert p[..i][..j] == p[..j] && p[j] == SLASH;
    }
  }

  lemma EnsureAddsMissing(t: Tree, q: Path, mode: nat)
    requires Parent(q) in t ==> t[Parent(q)].Dir?
    ensures EnsureDirectory(t, q, mode) == Made(WithDirs(t, OneLevel(q), mode), true)
  {
    if q == [] || q in t {
      assert WithDirs(t, OneLevel(q), mode) == t;
    } else {
      assert WithDirs(t, {q}, mode) == t[q := Dir(mode)];
    }
  }

  lemma WithDirsTwice(t: Tree, a: set<Path>, b: set<Path>, mode: nat)
    ensures WithDirs(WithDirs(t, a, mode), b, mode) == WithDirs(t, a + b, mode)
  {
  }

  lemma {:induction false} CreateFromAddsMissing(t: Tree, p: Path, pos: nat, mode: nat)
    requires pos <= |p|
    requires NoFileAt(t, Ancestors(p)) && [] !in t
    ensures CreateFrom(t, p, pos, mode) == Made(WithDirs(t, ChainFrom(p, pos), mode), true)
    decreases |p| - pos
  {
    var next := NextSlash(p, pos);
    LevelAdded(t, p, next, mode);
    if next == |p| {
      CreateFromLast(t, p, pos, mode);
    } else {
      var t' := WithDirs(t, OneLevel(p[..next]), mode);
      NoFileAdded(t, Ancestors(p), OneLevel(p[..next]), mode);
      CreateFromAddsMissing(t', p, next + 1, mode);
      CreateFromNext(t, p, pos, mode, t');
    }
  }

  lemma CreateFromLast(t: Tree, p: Path, pos: nat, mode: nat)
    requires pos <= |p| && NextSlash(p, pos) == |p|
    requires EnsureDirectory(t, p[..|p|], mode) == Made(WithDirs(t, OneLevel(p[..|p|]), mode), true)
    ensures CreateFrom(t, p, pos, mode) == Made(WithDirs(t, ChainFrom(p, pos), mode), true)
  {
    assert p[..|p|] == p;
    ChainEnds(p, pos);
  }

  lemma CreateFromNext(t: Tree, p: Path, pos: nat, mode: nat, t': Tree)
    requires pos <= |p| && NextSlash(p, pos) < |p|
    requires t' == WithDirs(t, OneLevel(p[..NextSlash(p, pos)]), mode)
    requires EnsureDirectory(t, p[..NextSlash(p, pos)], mode) == Made(t', true)
    requires CreateFrom(t', p, NextSlash(p, pos) + 1, mode) ==
             Made(WithDirs(t', ChainFrom(p, NextSlash(p, pos) + 1), mode), true)
    ensures CreateFrom(t, p, pos, mode) == Made(WithDirs(t, ChainFrom(p, pos), mode), true)
  {
    FirstThenRest(t, p, pos, mode);
  }

  lemma LevelAdded(t: Tree, p: Path, next: nat, mode: nat)
    requires next <= |p| && NoFileAt(t, Ancestors(p)) && [] !in t
    ensures EnsureDirectory(t, p[..next], mode) == Made(WithDirs(t, OneLevel(p[..next]), mode), true)
  {
    ParentIsAncestor(p, next);
    EnsureAddsMissing(t, p[..next], mode);
  }

  lemma ChainEnds(p: Path, pos: nat)
    requires pos <= |p| && NextSlash(p, pos) == |p|
    ensures ChainFrom(p, pos) == OneLevel(p)
  {
  }

  lemma FirstThenRest(t: Tree, p: Path, pos: nat, mode: nat)
    requires pos <= |p| && NextSlash(p, pos) < |p|
    ensures
      var next := NextSlash(p, pos);
      WithDirs(WithDirs(t, OneLevel(p[..next]), mode), ChainFrom(p, next + 1), mode) ==
        WithDirs(t, ChainFrom(p, pos), mode)
  {
    ChainSplit(p, pos);
    WithDirsTwice(t, OneLevel(p[..NextSlash(p, pos)]), ChainFrom(p, NextSlash(p, pos) + 1), mode);
  }

  lemma NoFileAdded(t: Tree, s: set<Path>, added: set<Path>, mode: nat)
    requires NoFileAt(t, s) && [] !in t && [] !in added
    ensures NoFileAt(WithDirs(t, added, mode), s) && [] !in WithDirs(t, added, mode)
  {
  }

  lemma ChainSplit(p: Path, pos: nat)
    requires pos <= |p| && NextSlash(p, pos) < |p|
    ensures
      var next := NextSlash(p, pos);
      ChainFrom(p, pos) == OneLevel(p[..next]) + ChainFrom(p, next + 1)
  {
    var next := NextSlash(p, pos);
    if next > 0 {
      assert p[..next] in ChainFrom(p, pos);
    }
    forall q | q in ChainFrom(p, pos)
      ensures q in ChainFrom(p, next + 1) || (next > 0 && q == p[..next])
    {
      if q != p {
        var i :| pos <= i < |p| && 0 < i && p[i] == SLASH && q == p[..i];
        assert i >= next;
      }
    }
  }

  /** Recursive creation succeeds whenever no ancestor is a regular file, and then it adds exactly
      the missing directories of the chain and changes nothing else. */
  lemma CreateDirectoryAddsMissing(t: Tree, p: Path, mode: nat)
    requires NoFileAt(t, Ancestors(p)) && [] !in t
    ensures CreateDirectory(t, p, mode) == Made(WithDirs(t, Chain(p), mode), true)
  {
    CreateFromAddsMissing(t, p, 0, mode);
    assert ChainFrom(p, 0) == Chain(p);
  }

  // ---------- creation where a regular file may be in the way ----------

  /** open(2) finds the file, or finds a directory to make it in. */
  predicate HasPlace(t: Tree, p: Path) {
    if p in t then t[p].File? else p != [] && (Parent(p) == [] || !IsFile(t, Parent(p)))
  }

  /** A missing directory that cannot be made, because a regular file is in the place of its parent. */
  predicate Blocked(t: Tree, q: Path) {
    q !in t && IsFile(t, Parent(q))
  }

  function Shorter(s: set<Path>, n: nat): set<Path> {
    set q | q in s && |q| < n
  }

  /** Creation stopped at q: what is shorter has been made, and nothing else. */
  ghost predicate StoppedAt(t: Tree, s: set<Path>, mode: nat, m: Made, q: Path) {
    q in s && Blocked(t, q) && m.tree == WithDirs(t, Shorter(s, |q|), mode)
  }

  /** The outcome over the levels in s, the longer behind the shorter. */
  ghost predicate Created(t: Tree, s: set<Path>, mode: nat, m: Made) {
    if m.ok then (forall q :: q in s ==> !Blocked(t, q)) && m.tree == WithDirs(t, s, mode)
    else exists q :: StoppedAt(t, s, mode, m, q)
  }

  lemma EnsureOne(t: Tree, q: Path, mode: nat)
    ensures
      var m := EnsureDirectory(t, q, mode);
      && (m.ok <==> q == [] || !Blocked(t, q))
      && m.tree == if m.ok then WithDirs(t, OneLevel(q), mode) else t
  {
    if q != [] && q !in t {
      assert WithDirs(t, {q}, mode) == t[q := Dir(mode)];
    }
  }

  lemma BlockedLater(t: Tree, q: Path, mode: nat, x: Path)
    requires x != q
    ensures Blocked(WithDirs(t, OneLevel(q), mode), x) <==> Blocked(t, x)
  {
  }

  lemma LevelsLonger(p: Path, pos: nat, q: Path)
    requires pos <= |p| && NextSlash(p, pos) < |p| && q in ChainFrom(p, NextSlash(p, pos) + 1)
    ensures |q| > NextSlash(p, pos) && q != p[..NextSlash(p, pos)]
  {
  }

  lemma {:induction false} CreateFromResult(t: Tree, p: Path, pos: nat, mode: nat)
    requires pos <= |p|
    ensures Created(t, ChainFrom(p, pos), mode, CreateFrom(t, p, pos, mode))
    decreases |p| - pos
  {
    var next := NextSlash(p, pos);
    if next == |p| {
      OnlyLevel(t, p, pos, mode);
    } else {
      var level := p[..next];
      ChainSplit(p, pos);
      if level == [] || !Blocked(t, level) {
        CreateFromResult(WithDirs(t, OneLevel(level), mode), p, next + 1, mode);
        RestOfLevels(t, p, pos, mode);
        NextLevels(t, p, pos, mode, level, ChainFrom(p, next + 1));
      } else {
        StopsHere(t, ChainFrom(p, pos), mode, level, p, pos);
      }
    }
  }

  lemma OnlyLevel(t: Tree, p: Path, pos: nat, mode: nat)
    requires pos <= |p| && NextSlash(p, pos) == |p|
    ensures Created(t, ChainFrom(p, pos), mode, CreateFrom(t, p, pos, mode))
  {
    ChainEnds(p, pos);
    LastLevel(t, p, mode, EnsureDirectory(t, p, mode));
  }

  lemma NextLevels(t: Tree, p: Path, pos: nat, mode: nat, level: Path, rest: set<Path>)
    requires pos <= |p| && NextSlash(p, pos) < |p| && level == p[..NextSlash(p, pos)]
    requires level == [] || !Blocked(t, level)
    requires forall q :: q in rest ==>
      |q| > |level| && (Blocked(WithDirs(t, OneLevel(level), mode), q) <==> Blocked(t, q))
    requires
      var t' := WithDirs(t, OneLevel(level), mode);
      Created(t', rest, mode, CreateFrom(t', p, NextSlash(p, pos) + 1, mode))
    ensures Created(t, OneLevel(level) + rest, mode, CreateFrom(t, p, pos, mode))
  {
    EnsureOne(t, level, mode);
    CreatedInTwo(t, level, rest, mode, CreateFrom(t, p, pos, mode));
  }

  lemma LastLevel(t: Tree, p: Path, mode: nat, m: Made)
    requires m == EnsureDirectory(t, p, mode)
    ensures Created(t, OneLevel(p), mode, m)
  {
    EnsureOne(t, p, mode);
    if !m.ok {
      assert Shorter(OneLevel(p), |p|) == {} && WithDirs(t, {}, mode) == t;
      assert StoppedAt(t, OneLevel(p), mode, m, p);
    }
  }

  lemma StopsHere(t: Tree, s: set<Path>, mode: nat, level: Path, p: Path, pos: nat)
    requires pos <= |p| && NextSlash(p, pos) < |p| && level == p[..NextSlash(p, pos)] && level != []
    requires s == OneLevel(level) + ChainFrom(p, NextSlash(p, pos) + 1)
    requires Blocked(t, level)
    ensures Created(t, s, mode, CreateFrom(t, p, pos, mode))
  {
    EnsureOne(t, level, mode);
    var m := Made(t, false);
    assert CreateFrom(t, p, pos, mode) == m;
    forall q | q in s
      ensures |q| >= |level|
    {
      if q in ChainFrom(p, NextSlash(p, pos) + 1) {
        LevelsLonger(p, pos, q);
      }
    }
    assert Shorter(s, |level|) == {} && WithDirs(t, {}, mode) == t;
    assert StoppedAt(t, s, mode, m, level);
  }

  lemma CreatedInTwo(t: Tree, level: Path, rest: set<Path>, mode: nat, m: Made)
    requires level == [] || !Blocked(t, level)
    requires forall q :: q in rest ==>
      |q| > |level| && (Blocked(WithDirs(t, OneLevel(level), mode), q) <==> Blocked(t, q))
    requires Created(WithDirs(t, OneLevel(level), mode), rest, mode, m)
    ensures Created(t, OneLevel(level) + rest, mode, m)
  {
    if m.ok {
      WithDirsTwice(t, OneLevel(level), rest, mode);
    } else {
      var q :| StoppedAt(WithDirs(t, OneLevel(level), mode), rest, mode, m, q);
      StopsLater(t, level, rest, mode, m, q);
    }
  }

  /** One level does not block or unblock the longer ones. */
  lemma RestOfLevels(t: Tree, p: Path, pos: nat, mode: nat)
    requires pos <= |p| && NextSlash(p, pos) < |p|
    ensures
      var level := p[..NextSlash(p, pos)];
      forall q :: q in ChainFrom(p, NextSlash(p, pos) + 1) ==>
        |q| > |level| && (Blocked(WithDirs(t, OneLevel(level), mode), q) <==> Blocked(t, q))
  {
    var level := p[..NextSlash(p, pos)];
    forall q | q in ChainFrom(p, NextSlash(p, pos) + 1)
      ensures |q| > |level| && (Blocked(WithDirs(t, OneLevel(level), mode), q) <==> Blocked(t, q))
    {
      LevelsLonger(p, pos, q);
      BlockedLater(t, level, mode, q);
    }
  }

  lemma StopsLater(t: Tree, level: Path, rest: set<Path>, mode: nat, m: Made, q: Path)
    requires StoppedAt(WithDirs(t, OneLevel(level), mode), rest, mode, m, q) && Blocked(t, q) && |q| > |level|
    ensures StoppedAt(t, OneLevel(level) + rest, mode, m, q)
  {
    WithDirsTwice(t, OneLevel(level), Shorter(rest, |q|), mode);
    assert Shorter(OneLevel(level) + rest, |q|) == OneLevel(level) + Shorter(rest, |q|);
  }

  /** Recursive creation on any tree: it succeeds if and only if no level is blocked, and then has added exactly
      the missing levels; otherwise it has stopped at a blocked level and added the shorter ones. */
  lemma CreateDirectoryResult(t: Tree, p: Path, mode: nat)
    ensures Created(t, Chain(p), mode, CreateDirectory(t, p, mode))
    ensures CreateDirectory(t, p, mode).ok <==> forall q :: q in Chain(p) ==> !Blocked(t, q)
  {
    CreateFromResult(t, p, 0, mode);
    assert ChainFrom(p, 0) == Chain(p);
  }

  /** The chain of the directory that holds p is the set of p's ancestors. */
  lemma ParentChain(p: Path)
    ensures Chain(Parent(p)) == Ancestors(p)
  {
    var j := LastSlash(p);
    forall q | q in Ancestors(p)
      ensures q in Chain(Parent(p))
    {
      var i :| 0 < i < |p| && p[i] == SLASH && q == p[..i];
      assert i <= j;
      if i < j {
        assert p[..j][..i] == q && p[..j][i] == SLASH;
      }
    }
    forall q | q in Chain(Parent(p))
      ensures q in Ancestors(p)
    {
      if q != p[..j] {
        var i :| 0 < i < j && p[..j][i] == SLASH && q == p[..j][..i];
        assert q == p[..i];
      }
    }
  }

  lemma EmptyIsNoAncestor(p: Path)
    ensures [] !in Chain(p) && [] !in Ancestors(p)
  {
  }
}
