/** The handlers of the two calls: handleListFiles and handleGetFileMeta, as the answers that the service
    sends. */
module RpcHandlers {
  import opened Bytes
  import opened Results
  import opened FileTree
  import opened ProtoWire
  import opened ProtoMessages
  import opened ProtoRpc
  import opened Listing
  import Service = RpcService

  /** The directory of a request as the walk names it: with a slash at its end, unless it is the root. */
  function PrefixOf(directory: Path): Prefix {
    if directory == [] || directory[|directory| - 1] == SLASH then directory else Inside(directory)
  }

  /** stat(2) finds a directory. */
  predicate Found(t: Tree, directory: Path) {
    var d := PrefixOf(directory);
    d == [] || (d[..|d| - 1] in t && t[d[..|d| - 1]].Dir?)
  }

  /** The path without the slash that only a directory may have at its end. */
  function Bare(p: Path): Path {
    if p != [] && p[|p| - 1] == SLASH then p[..|p| - 1] else p
  }

  /** stat(2) on a path below the base directory, which is itself the empty path. */
  function Stat(t: Tree, a: Attributes, p: Path): Option<Node> {
    if p == [] then Some(Dir(a.rootMode))
    else if Bare(p) !in t || (Bare(p) != p && t[Bare(p)].File?) then None
    else Some(t[Bare(p)])
  }

  lemma StatFindsDirectories(t: Tree, a: Attributes, p: Path)
    ensures Found(t, p) <==> Stat(t, a, p).Some? && Stat(t, a, p).value.Dir?
  {
    assert p != [] && p[|p| - 1] != SLASH ==> PrefixOf(p)[..|p|] == p;
  }

  /** What the server may be asked to list, and what readdir then returns. */
  ghost predicate Listable(t: Tree, readdir: Readdir) {
    ListsAll(t, readdir) && forall directory :: Found(t, directory) ==> Closed(t, PrefixOf(directory))
  }

  ghost function ListAnswer(t: Tree, a: Attributes, readdir: Readdir, r: ListFilesRequest): Option<ListFilesResponse>
    requires Listable(t, readdir)
  {
    if !Found(t, r.directory) then None
    else
      var walk := Walk(t, readdir, PrefixOf(r.directory), 0, r.recursive);
      WalkInTree(t, readdir, PrefixOf(r.directory), 0, r.recursive);
      Some(ListFilesResponse(Entries(t, a, walk), r.directory, WrapInt32(|walk|)))
  }

  method HandleListFiles(t: Tree, a: Attributes, readdir: Readdir, r: ListFilesRequest)
    returns (answer: Option<ListFilesResponse>)
    requires Listable(t, readdir)
    ensures answer == ListAnswer(t, a, readdir, r)
  {
    StatFindsDirectories(t, a, r.directory);
    var st := Stat(t, a, r.directory);
    if st == None || !st.value.Dir? {
      return None;
    }
    var b := new Builder();
    b.ListDirectory(t, a, readdir, PrefixOf(r.directory), r.recursive);
    ghost var entries := Entries(t, a, Walk(t, readdir, PrefixOf(r.directory), 0, r.recursive));
    assert [] + entries == entries;
    answer := Some(ListFilesResponse(b.files, r.directory, WrapInt32(b.totalCount)));
  }

  /** A missing path is described as missing, and a file with its digest. */
  function MetaAnswer(t: Tree, a: Attributes, r: GetFileMetaRequest): GetFileMetaResponse {
    var p := r.filePath;
    match Stat(t, a, p)
    case None => GetFileMetaResponse(Some(EMPTY_FILE_META), true, [])
    case Some(File(data, mode)) =>
      var meta := FileMeta(BaseName(p), p, |data|, a.mtime(p), a.ctime(p), mode, a.md5(data), false, true);
      GetFileMetaResponse(Some(meta), true, [])
    case Some(Dir(mode)) =>
      var q := Bare(p);
      var meta := FileMeta(BaseName(p), p, a.dirSize(q), a.mtime(q), a.ctime(q), mode, [], true, true);
      GetFileMetaResponse(Some(meta), true, [])
  }

  /** The response as handleGetFileMeta fills it in, field by field. */
  method HandleGetFileMeta(t: Tree, a: Attributes, r: GetFileMetaRequest) returns (response: GetFileMetaResponse)
    ensures response == MetaAnswer(t, a, r)
  {
    response := EMPTY_GET_FILE_META_RESPONSE;
    var st := Stat(t, a, r.filePath);
    var meta := EMPTY_FILE_META;
    if st == None {
      meta := meta.(isPresent := false);
      return response.(meta := Some(meta), success := true);
    }
    var q := Bare(r.filePath);
    meta := meta.(isPresent := true, isDirectory := st.value.Dir?);
    meta := meta.(size := if st.value.Dir? then a.dirSize(q) else |st.value.data|);
    meta := meta.(mtime := a.mtime(q), ctime := a.ctime(q), mode := st.value.mode);
    var slashPos := LastSlash(r.filePath);
    if slashPos >= 0 {
      meta := meta.(name := r.filePath[slashPos + 1..]);
    } else {
      assert r.filePath[0..] == r.filePath;
      meta := meta.(name := r.filePath);
    }
    meta := meta.(path := r.filePath);
    if st.value.File? {
      meta := meta.(md5 := a.md5(st.value.data));
    }
    response := response.(meta := Some(meta), success := true);
  }

  /** What the path names, if anything: the base directory, a path of the tree, or a directory of the tree
      with one slash behind it. */
  predicate Names(t: Tree, p: Path, q: Path) {
    || (p == [] && q == [])
    || (q in t && p == q && p != [] && p[|p| - 1] != SLASH)
    || (q in t && t[q].Dir? && p == Inside(q))
  }

  /** name is what stands behind the last slash of p, or all of p. */
  predicate LastPart(p: Path, name: seq<byte>) {
    SLASH !in name && (name == p || exists k :: 0 <= k < |p| && p[k] == SLASH && name == p[k + 1..])
  }

  /** What the file system has to say of a file, with the digest of its own bytes. */
  predicate DescribesFile(m: FileMeta, a: Attributes, q: Path, data: seq<byte>, mode: nat) {
    !m.isDirectory && m.size == |data| && m.mode == mode && m.mtime == a.mtime(q) && m.ctime == a.ctime(q)
    && m.md5 == a.md5(data)
  }

  /** And of a directory, which has no digest. */
  predicate DescribesDir(m: FileMeta, a: Attributes, q: Path, mode: nat) {
    m.isDirectory && m.size == a.dirSize(q) && m.mode == mode && m.mtime == a.mtime(q) && m.ctime == a.ctime(q)
    && m.md5 == []
  }

  /** The answer to a request for metadata is always a success. It reports the path as present if and only if
      it names something; of a path that names nothing every field is at its default. */
  lemma MetaPresentIff(t: Tree, a: Attributes, p: Path)
    ensures
      var r := MetaAnswer(t, a, GetFileMetaRequest(p));
      && r.success && r.error == [] && r.meta.Some?
      && (r.meta.value.isPresent <==> exists q :: Names(t, p, q))
      && (!r.meta.value.isPresent ==> r.meta.value == FileMeta([], [], 0, 0, 0, 0, [], false, false))
  {
    StatFindsIff(t, a, p);
  }

  lemma StatFindsIff(t: Tree, a: Attributes, p: Path)
    ensures Stat(t, a, p).Some? <==> exists q :: Names(t, p, q)
  {
    if exists q :: Names(t, p, q) {
      var q :| Names(t, p, q);
      NamesIsStat(t, a, p, q);
    } else {
      assert !Names(t, p, Bare(p));
      assert Bare(p) != p ==> p == Inside(Bare(p));
    }
  }

  lemma NamesIsStat(t: Tree, a: Attributes, p: Path, q: Path)
    requires Names(t, p, q)
    ensures Bare(p) == q
    ensures Stat(t, a, p) == Some(if p == [] then Dir(a.rootMode) else t[q])
  {
    if p == Inside(q) {
      assert p[..|p| - 1] == q;
    }
  }

  lemma LastPartIs(p: Path)
    ensures LastPart(p, BaseName(p))
  {
    if LastSlash(p) < 0 {
      assert p[0..] == p;
    }
  }

  /** A path that names something is described by the path as it was asked for, the part behind its last slash,
      and what the file system has to say of what it names. */
  lemma MetaDescribes(t: Tree, a: Attributes, p: Path, q: Path)
    requires Names(t, p, q)
    ensures
      var m := MetaAnswer(t, a, GetFileMetaRequest(p)).meta.value;
      && m.isPresent && m.path == p && LastPart(p, m.name)
      && match if p == [] then Dir(a.rootMode) else t[q]
         case File(data, mode) => DescribesFile(m, a, q, data, mode)
         case Dir(mode) => DescribesDir(m, a, q, mode)
  {
    NamesIsStat(t, a, p, q);
    LastPartIs(p);
  }

  /** Attributes are in the ranges of the fields that carry them, and digests are plain text. */
  ghost predicate Representable(t: Tree, a: Attributes) {
    && (forall p :: p in t || p == [] ==>
         IsString(p) && IsInt64(a.mtime(p)) && IsInt64(a.ctime(p)) && IsInt64(a.dirSize(p)))
    && (forall p :: p in t ==> t[p].mode < TWO_32 && (t[p].File? ==> IsInt64(|t[p].data|)))
    && a.rootMode < TWO_32 && forall data :: IsString(a.md5(data)) && Utf8(a.md5(data))
  }

  /** A slash is never inside a code point, so what follows one is UTF-8 if the whole is. */
  lemma {:induction false} Utf8AfterSlash(s: seq<byte>, i: nat)
    requires Utf8(s) && i < |s| && s[i] == SLASH
    ensures Utf8(s[i + 1..])
    decreases |s|
  {
    var n := CodePoint(s);
    if i < n {
      assert i == 0 && n == 1;
    } else {
      assert s[n..][i - n] == SLASH;
      Utf8AfterSlash(s[n..], i - n);
      assert s[n..][i - n + 1..] == s[i + 1..];
    }
  }

  lemma NameIsUtf8(p: Path)
    requires Utf8(p)
    ensures Utf8(BaseName(p))
  {
    var i := LastSlash(p);
    if i >= 0 {
      Utf8AfterSlash(p, i);
    } else {
      assert p[0..] == p;
    }
  }

  /** The paths that a listing has to name. */
  function Listed(t: Tree, r: ListFilesRequest): set<Path> {
    if r.recursive then Below(t, PrefixOf(r.directory)) else Children(t, PrefixOf(r.directory))
  }

  /** The listing of a tree is a message that the schema can carry, has each path of the walk once with
      parents first, and counts its entries if they are fewer than 2^31. */
  lemma AnswerIsValid(t: Tree, a: Attributes, readdir: Readdir, r: ListFilesRequest)
    requires Listable(t, readdir) && Representable(t, a) && IsString(r.directory)
    ensures
      match ListAnswer(t, a, readdir, r)
      case None => !Found(t, r.directory)
      case Some(m) =>
        && ValidListFilesResponse(m) && m.directory == r.directory
        && (|m.files| < TWO_31 ==> m.totalCount == |m.files|)
        && (forall i, j :: 0 <= i < j < |m.files| ==> m.files[i].path != m.files[j].path)
        && (set i | 0 <= i < |m.files| :: m.files[i].path) == Listed(t, r)
        && forall i :: 0 <= i < |m.files| ==> m.files[i].path in t && m.files[i] == EntryOf(t, a, m.files[i].path)
  {
    if Found(t, r.directory) {
      var d := PrefixOf(r.directory);
      var walk := Walk(t, readdir, d, 0, r.recursive);
      WalkInTree(t, readdir, d, 0, r.recursive);
      WalkOrdered(t, readdir, d, r.recursive);
      EntriesAreValid(t, a, walk);
      PathsOf(Entries(t, a, walk), walk);
    }
  }

  lemma EntriesAreValid(t: Tree, a: Attributes, ps: seq<Path>)
    requires Representable(t, a) && forall p :: p in ps ==> p in t
    ensures ValidFiles(Entries(t, a, ps))
    ensures forall i :: 0 <= i < |ps| ==>
      Entries(t, a, ps)[i].path == ps[i] && Entries(t, a, ps)[i] == EntryOf(t, a, ps[i])
  {
    var es := Entries(t, a, ps);
    forall i | 0 <= i < |es|
      ensures ValidFileEntry(es[i])
    {
      assert ps[i] in ps;
    }
  }

  lemma PathsOf(files: seq<FileEntry>, walk: seq<Path>)
    requires |files| == |walk| && forall i :: 0 <= i < |files| ==> files[i].path == walk[i]
    ensures (set i | 0 <= i < |files| :: files[i].path) == Elements(walk)
  {
    forall p | p in walk
      ensures p in (set i | 0 <= i < |files| :: files[i].path)
    {
      var i :| 0 <= i < |walk| && walk[i] == p;
      assert files[i].path == p;
    }
  }

  lemma MetaIsValid(t: Tree, a: Attributes, r: GetFileMetaRequest)
    requires Representable(t, a) && IsString(r.filePath)
    ensures ValidGetFileMetaResponse(MetaAnswer(t, a, r))
    ensures Utf8(r.filePath) ==> TextGetFileMetaResponse(MetaAnswer(t, a, r))
  {
    if Utf8(r.filePath) {
      NameIsUtf8(r.filePath);
    }
  }

  lemma NoSlashAtEnd(t: Tree, d: Prefix, p: Path)
    requires Closed(t, d) && p in Below(t, d)
    ensures Bare(p) == p && p != []
  {
    assert GoesThrough(t, d, p);
  }

  /** The response is about a path that exists and says the same as the entry. */
  predicate Describes(response: GetFileMetaResponse, e: FileEntry) {
    && response.success && response.meta.Some?
    && var m := response.meta.value;
       && m.isPresent && m.name == e.name && m.path == e.path && m.isDirectory == e.isDirectory
       && m.size == e.size && m.mtime == e.mtime && m.mode == e.mode
  }

  lemma EntryIsDescribed(t: Tree, a: Attributes, p: Path)
    requires p in t && p != [] && Bare(p) == p
    ensures Describes(MetaAnswer(t, a, GetFileMetaRequest(p)), EntryOf(t, a, p))
  {
  }

  /** The two calls agree: what a listing says of an entry is what asking for that entry's path says. */
  lemma ListedIsDescribed(t: Tree, a: Attributes, readdir: Readdir, r: ListFilesRequest, m: ListFilesResponse,
                          e: FileEntry)
    requires Listable(t, readdir) && Representable(t, a) && IsString(r.directory)
    requires ListAnswer(t, a, readdir, r) == Some(m) && e in m.files
    ensures Describes(MetaAnswer(t, a, GetFileMetaRequest(e.path)), e)
  {
    var p := e.path;
    assert Found(t, r.directory) && p in Listed(t, r) && e == EntryOf(t, a, p) by {
      AnswerIsValid(t, a, readdir, r);
      assert p in (set j | 0 <= j < |m.files| :: m.files[j].path);
    }
    NoSlashAtEnd(t, PrefixOf(r.directory), p);
    EntryIsDescribed(t, a, p);
  }

  /** The service's handlers answer for trees: one for each request, since the files may change in between.
      No request carries a path that does not fit in a message. */
  ghost predicate AnswerForTrees(h: Service.Handlers, trees: nat -> Tree, a: Attributes, readdirs: nat -> Readdir) {
    && (forall i :: Listable(trees(i), readdirs(i)) && Representable(trees(i), a))
    && (forall i, r ::
         h.list(i, r) == if IsString(r.directory) then ListAnswer(trees(i), a, readdirs(i), r) else None)
    && (forall i, r :: h.meta(i, r) ==
         if IsString(r.filePath) then MetaAnswer(trees(i), a, r) else EMPTY_GET_FILE_META_RESPONSE)
  }

  lemma TreeHandlersAreSane(h: Service.Handlers, trees: nat -> Tree, a: Attributes, readdirs: nat -> Readdir)
    requires AnswerForTrees(h, trees, a, readdirs)
    ensures Service.Sane(h)
  {
    forall i, r | h.list(i, r).Some?
      ensures ValidListFilesResponse(h.list(i, r).value)
    {
      AnswerIsValid(trees(i), a, readdirs(i), r);
    }
    forall i, r
      ensures ValidGetFileMetaResponse(h.meta(i, r))
    {
      if IsString(r.filePath) {
        MetaIsValid(trees(i), a, r);
      }
    }
  }

  lemma ListingIsTextIff(t: Tree, a: Attributes, readdir: Readdir, r: ListFilesRequest)
    requires Listable(t, readdir) && Representable(t, a) && IsString(r.directory) && Utf8(r.directory)
    requires Found(t, r.directory)
    ensures TextListFilesResponse(ListAnswer(t, a, readdir, r).value) <==> forall p :: p in Listed(t, r) ==> Utf8(p)
  {
    AnswerIsValid(t, a, readdir, r);
    var files := ListAnswer(t, a, readdir, r).value.files;
    forall i | 0 <= i < |files|
      ensures TextFileEntry(files[i]) <==> Utf8(files[i].path)
    {
      EntryIsTextIff(files[i]);
    }
    FilesAreTextIff(files, Listed(t, r));
  }

  lemma EntryIsTextIff(e: FileEntry)
    requires e.name == BaseName(e.path)
    ensures TextFileEntry(e) <==> Utf8(e.path)
  {
    if Utf8(e.path) {
      NameIsUtf8(e.path);
    }
  }

  lemma FilesAreTextIff(files: seq<FileEntry>, paths: set<Path>)
    requires forall i :: 0 <= i < |files| ==> (TextFileEntry(files[i]) <==> Utf8(files[i].path))
    requires paths == set i | 0 <= i < |files| :: files[i].path
    ensures TextFiles(files) <==> forall p :: p in paths ==> Utf8(p)
  {
    if TextFiles(files) {
      forall p | p in paths
        ensures Utf8(p)
      {
        var i :| 0 <= i < |files| && files[i].path == p;
        assert TextFileEntry(files[i]);
      }
    } else {
      var i :| 0 <= i < |files| && !TextFileEntry(files[i]);
      assert files[i].path in paths && !Utf8(files[i].path);
    }
  }

  lemma ReplyIsText(rpcType: int, success: bool, error: seq<byte>, p: ResponsePayload)
    requires Utf8(error)
    ensures TextRpcResponse(RpcResponse(rpcType, success, error, p)) <==> TextResponsePayload(p)
  {
  }

  lemma ListCallReadableIff(h: Service.Handlers, t: Tree, a: Attributes, readdir: Readdir, i: nat, r: ListFilesRequest)
    requires Listable(t, readdir) && Representable(t, a) && IsString(r.directory) && Utf8(r.directory)
    requires h.list(i, r) == ListAnswer(t, a, readdir, r)
    ensures
      Service.Readable(h, i, Service.ListFiles(r.directory, r.recursive)) <==>
      (Found(t, r.directory) ==> forall p :: p in Listed(t, r) ==> Utf8(p))
  {
    Service.ErrorTexts();
    if Found(t, r.directory) {
      ListingIsTextIff(t, a, readdir, r);
      ReplyIsText(Service.RPC_LIST_FILES, true, [], ListReply(h.list(i, r).value));
    } else {
      ReplyIsText(Service.RPC_LIST_FILES, false, Service.PROCESSING_FAILED, NoResponse);
    }
  }

  lemma MetaCallReadable(h: Service.Handlers, t: Tree, a: Attributes, i: nat, r: GetFileMetaRequest)
    requires Representable(t, a) && IsString(r.filePath) && Utf8(r.filePath)
    requires h.meta(i, r) == MetaAnswer(t, a, r)
    ensures Service.Readable(h, i, Service.GetFileMeta(r.filePath))
  {
    MetaIsValid(t, a, r);
    ReplyIsText(Service.RPC_GET_FILE_META, true, [], MetaReply(h.meta(i, r)));
  }

  /** Names that are not UTF-8 are sent but not read: the client can read the response to an answered call
      unless that call lists a directory that has such a path in it. With HandlersResultAt this says of every
      call on a connection whether it returns what is on the disk. */
  lemma ReadableIffUtf8(h: Service.Handlers, trees: nat -> Tree, a: Attributes, readdirs: nat -> Readdir, i: nat,
                        c: Service.Call)
    requires AnswerForTrees(h, trees, a, readdirs)
    requires Service.Sendable(c) && Service.Answered(h, i, c)
    ensures
      Service.Readable(h, i, c) <==>
      match c
      case ListFiles(d, recursive) =>
        Found(trees(i), d) ==> forall p :: p in Listed(trees(i), ListFilesRequest(d, recursive)) ==> Utf8(p)
      case GetFileMeta(_) => true
  {
    match c
    case ListFiles(d, recursive) => ListCallReadableIff(h, trees(i), a, readdirs(i), i, ListFilesRequest(d, recursive));
    case GetFileMeta(p) => MetaCallReadable(h, trees(i), a, i, GetFileMetaRequest(p));
  }
}
