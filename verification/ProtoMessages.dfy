/** The flat messages of the RPC schema: what the generated code keeps, writes, measures, merges and
    reads for each. For every message, in this order: Fields lists what _InternalSerialize writes, in
    field order and without defaults; Size adds up what ByteSizeLong does; Merge is MergeImpl; Apply is
    one turn of the switch in _InternalParse, which ignores unknown fields and mismatched wire types. */
module ProtoMessages {
  import opened Bytes
  import opened Results
  import opened ProtoWire

  /** A string that fits in a message. The parsers check that strings are UTF-8; what writes them does
      not: each message has one predicate for what it can hold and one for text that passes the check. */
  predicate IsString(s: seq<byte>) {
    |s| < TWO_31
  }

  function StringField(num: nat, s: seq<byte>): Field {
    LenField(num, |s|, s)
  }

  function Flag(num: nat): Field {
    VarintField(num, 1)
  }

  function Number(num: nat, v: int): Field
    requires IsInt64(v)
  {
    VarintField(num, Unsigned64(v))
  }

  /** The parse loop on a serialised message merges it into what is there and goes on, or fails. */
  lemma ParseMerges<M>(apply: (M, Field) -> Option<M>, fs: Fields, rest: seq<byte>, to: M, merged: Option<M>)
    requires AllProper(fs) && ApplyAll(apply, fs, to) == merged
    ensures Parse(apply, Encode(fs) + rest, to) == if merged.Some? then Parse(apply, rest, merged.value) else None
    ensures Parse(apply, Encode(fs), to) == merged
  {
    ParseEncoded(apply, fs, rest, to);
    ParseEncoded(apply, fs, [], to);
    assert Encode(fs) + [] == Encode(fs);
  }

  // ---------- ListFilesRequest ----------

  datatype ListFilesRequest = ListFilesRequest(directory: seq<byte>, recursive: bool)

  const EMPTY_LIST_FILES_REQUEST := ListFilesRequest([], false)

  predicate ValidListFilesRequest(m: ListFilesRequest) {
    IsString(m.directory)
  }

  predicate TextListFilesRequest(m: ListFilesRequest) {
    Utf8(m.directory)
  }

  function FieldsListFilesRequest(m: ListFilesRequest): Fields
    requires ValidListFilesRequest(m)
  {
    Next(m.directory != [], StringField(1, m.directory),
    Next(m.recursive, Flag(2),
    End))
  }

  function SerializeListFilesRequest(m: ListFilesRequest): seq<byte>
    requires ValidListFilesRequest(m)
  {
    Encode(FieldsListFilesRequest(m))
  }

  function SizeListFilesRequest(m: ListFilesRequest): nat
    requires ValidListFilesRequest(m)
  {
    Sized(m.directory != [], StringSize(m.directory)) +
    Sized(m.recursive, 1)
  }

  function MergeListFilesRequest(to: ListFilesRequest, from: ListFilesRequest): ListFilesRequest {
    to.(directory := if from.directory != [] then from.directory else to.directory,
        recursive := if from.recursive then from.recursive else to.recursive)
  }

  function ApplyListFilesRequest(m: ListFilesRequest, f: Field): Option<ListFilesRequest> {
    if f.LenField? && f.num == 1 then if Utf8(f.payload) then Some(m.(directory := f.payload)) else None
    else if f.VarintField? && f.num == 2 then Some(m.(recursive := f.value != 0))
    else Some(m)
  }

  /** The size that ByteSizeLong adds up is the length of what is written. */
  lemma SizeIsLengthListFilesRequest(m: ListFilesRequest)
    requires ValidListFilesRequest(m)
    ensures |SerializeListFilesRequest(m)| == SizeListFilesRequest(m)
  {
    var f1 := FieldsListFilesRequest(m);
    var f2 := f1.rest;
    LengthOfLen(1, |m.directory|, m.directory);
    LengthOfVarint(2, 1);
    assert |Encode(f2)| == (if f2.present then |EncodeField(f2.field)| else 0) + |Encode(f2.rest)|;
    assert |Encode(f1)| == (if f1.present then |EncodeField(f1.field)| else 0) + |Encode(f1.rest)|;
  }

  /** Reading a serialised message into to merges the two if its strings are UTF-8, and fails if not. */
  lemma IntoListFilesRequest(to: ListFilesRequest, m: ListFilesRequest)
    requires ValidListFilesRequest(m)
    ensures AllProper(FieldsListFilesRequest(m))
    ensures ApplyAll(ApplyListFilesRequest, FieldsListFilesRequest(m), to) ==
            if TextListFilesRequest(m) then Some(MergeListFilesRequest(to, m)) else None
  {
    var f1 := FieldsListFilesRequest(m);
    var t1 := to.(directory := if m.directory != [] then m.directory else to.directory);
    ApplyText(ApplyListFilesRequest, f1, to, t1, Utf8(m.directory));
    var f2 := f1.rest;
    var t2 := t1.(recursive := if m.recursive then m.recursive else t1.recursive);
    ApplyNext(ApplyListFilesRequest, f2, t1, t2);
    assert AllProper(f2);
    assert AllProper(f1);
  }

  // ---------- FileEntry ----------

  datatype FileEntry = FileEntry(name: seq<byte>, path: seq<byte>, isDirectory: bool, size: int, mtime: int, mode: nat)

  const EMPTY_FILE_ENTRY := FileEntry([], [], false, 0, 0, 0)

  predicate ValidFileEntry(m: FileEntry) {
    IsString(m.name) && IsString(m.path) && IsInt64(m.size) && IsInt64(m.mtime) && m.mode < TWO_32
  }

  predicate TextFileEntry(m: FileEntry) {
    Utf8(m.name) && Utf8(m.path)
  }

  function FieldsFileEntryFrom4(m: FileEntry): Fields
    requires ValidFileEntry(m)
  {
    Next(m.size != 0, Number(4, m.size),
    Next(m.mtime != 0, Number(5, m.mtime),
    Next(m.mode != 0, VarintField(6, m.mode),
    End)))
  }

  function FieldsFileEntry(m: FileEntry): Fields
    requires ValidFileEntry(m)
  {
    Next(m.name != [], StringField(1, m.name),
    Next(m.path != [], StringField(2, m.path),
    Next(m.isDirectory, Flag(3),
    FieldsFileEntryFrom4(m))))
  }

  function SerializeFileEntry(m: FileEntry): seq<byte>
    requires ValidFileEntry(m)
  {
    Encode(FieldsFileEntry(m))
  }

  function SizeFileEntry(m: FileEntry): nat
    requires ValidFileEntry(m)
  {
    Sized(m.name != [], StringSize(m.name)) +
    Sized(m.path != [], StringSize(m.path)) +
    Sized(m.size != 0, VarintSize(Unsigned64(m.size))) +
    Sized(m.isDirectory, 1) +
    Sized(m.mode != 0, VarintSize(m.mode)) +
    Sized(m.mtime != 0, VarintSize(Unsigned64(m.mtime)))
  }

  function MergeFileEntry(to: FileEntry, from: FileEntry): FileEntry {
    to.(name := if from.name != [] then from.name else to.name,
        path := if from.path != [] then from.path else to.path,
        size := if from.size != 0 then from.size else to.size,
        isDirectory := if from.isDirectory then from.isDirectory else to.isDirectory,
        mode := if from.mode != 0 then from.mode else to.mode,
        mtime := if from.mtime != 0 then from.mtime else to.mtime)
  }

  function ApplyFileEntry(m: FileEntry, f: Field): Option<FileEntry> {
    if f.LenField? && f.num == 1 then if Utf8(f.payload) then Some(m.(name := f.payload)) else None
    else if f.LenField? && f.num == 2 then if Utf8(f.payload) then Some(m.(path := f.payload)) else None
    else if f.VarintField? && f.num == 3 then Some(m.(isDirectory := f.value != 0))
    else if f.VarintField? && f.num == 4 then Some(m.(size := Signed64(f.value)))
    else if f.VarintField? && f.num == 5 then Some(m.(mtime := Signed64(f.value)))
    else if f.VarintField? && f.num == 6 then Some(m.(mode := f.value % TWO_32))
    else Some(m)
  }

  lemma LengthOfFileEntryFrom4(m: FileEntry)
    requires ValidFileEntry(m)
    ensures |Encode(FieldsFileEntryFrom4(m))| ==
      Sized(m.size != 0, VarintSize(Unsigned64(m.size))) +
      Sized(m.mtime != 0, VarintSize(Unsigned64(m.mtime))) +
      Sized(m.mode != 0, VarintSize(m.mode))
  {
    Int64RoundTrip(m.size);
    Int64RoundTrip(m.mtime);
    var f1 := FieldsFileEntryFrom4(m);
    var f2 := f1.rest;
    var f3 := f2.rest;
    LengthOfVarint(4, Unsigned64(m.size));
    LengthOfVarint(5, Unsigned64(m.mtime));
    LengthOfVarint(6, m.mode);
    assert |Encode(f3)| == (if f3.present then |EncodeField(f3.field)| else 0) + |Encode(f3.rest)|;
    assert |Encode(f2)| == (if f2.present then |EncodeField(f2.field)| else 0) + |Encode(f2.rest)|;
    assert |Encode(f1)| == (if f1.present then |EncodeField(f1.field)| else 0) + |Encode(f1.rest)|;
  }

  lemma IntoFileEntryFrom4(to: FileEntry, m: FileEntry)
    requires ValidFileEntry(m)
    ensures AllProper(FieldsFileEntryFrom4(m))
    ensures ApplyAll(ApplyFileEntry, FieldsFileEntryFrom4(m), to) ==
      Some(to.(size := if m.size != 0 then m.size else to.size,
                   mtime := if m.mtime != 0 then m.mtime else to.mtime,
                   mode := if m.mode != 0 then m.mode else to.mode))
  {
    Int64RoundTrip(m.size);
    Int64RoundTrip(m.mtime);
    var f1 := FieldsFileEntryFrom4(m);
    var t1 := to.(size := if m.size != 0 then m.size else to.size);
    ApplyNext(ApplyFileEntry, f1, to, t1);
    var f2 := f1.rest;
    var t2 := t1.(mtime := if m.mtime != 0 then m.mtime else t1.mtime);
    ApplyNext(ApplyFileEntry, f2, t1, t2);
    var f3 := f2.rest;
    var t3 := t2.(mode := if m.mode != 0 then m.mode else t2.mode);
    ApplyNext(ApplyFileEntry, f3, t2, t3);
    assert AllProper(f3);
    assert AllProper(f2);
    assert AllProper(f1);
  }

  /** The size that ByteSizeLong adds up is the length of what is written. */
  lemma SizeIsLengthFileEntry(m: FileEntry)
    requires ValidFileEntry(m)
    ensures |SerializeFileEntry(m)| == SizeFileEntry(m)
  {
    LengthOfFileEntryFrom4(m);
    var f1 := FieldsFileEntry(m);
    var f2 := f1.rest;
    var f3 := f2.rest;
    LengthOfLen(1, |m.name|, m.name);
    LengthOfLen(2, |m.path|, m.path);
    LengthOfVarint(3, 1);
    assert |Encode(f3)| == (if f3.present then |EncodeField(f3.field)| else 0) + |Encode(f3.rest)|;
    assert |Encode(f2)| == (if f2.present then |EncodeField(f2.field)| else 0) + |Encode(f2.rest)|;
    assert |Encode(f1)| == (if f1.present then |EncodeField(f1.field)| else 0) + |Encode(f1.rest)|;
  }

  /** Reading a serialised message into to merges the two if its strings are UTF-8, and fails if not. */
  lemma IntoFileEntry(to: FileEntry, m: FileEntry)
    requires ValidFileEntry(m)
    ensures AllProper(FieldsFileEntry(m))
    ensures ApplyAll(ApplyFileEntry, FieldsFileEntry(m), to) ==
            if TextFileEntry(m) then Some(MergeFileEntry(to, m)) else None
  {
    var f1 := FieldsFileEntry(m);
    var t1 := to.(name := if m.name != [] then m.name else to.name);
    ApplyText(ApplyFileEntry, f1, to, t1, Utf8(m.name));
    var f2 := f1.rest;
    var t2 := t1.(path := if m.path != [] then m.path else t1.path);
    ApplyText(ApplyFileEntry, f2, t1, t2, Utf8(m.path));
    var f3 := f2.rest;
    var t3 := t2.(isDirectory := if m.isDirectory then m.isDirectory else t2.isDirectory);
    ApplyNext(ApplyFileEntry, f3, t2, t3);
    IntoFileEntryFrom4(t3, m);
    assert AllProper(f3);
    assert AllProper(f2);
    assert AllProper(f1);
  }

  // ---------- GetFileMetaRequest ----------

  datatype GetFileMetaRequest = GetFileMetaRequest(filePath: seq<byte>)

  const EMPTY_GET_FILE_META_REQUEST := GetFileMetaRequest([])

  predicate ValidGetFileMetaRequest(m: GetFileMetaRequest) {
    IsString(m.filePath)
  }

  predicate TextGetFileMetaRequest(m: GetFileMetaRequest) {
    Utf8(m.filePath)
  }

  function FieldsGetFileMetaRequest(m: GetFileMetaRequest): Fields
    requires ValidGetFileMetaRequest(m)
  {
    Next(m.filePath != [], StringField(1, m.filePath),
    End)
  }

  function SerializeGetFileMetaRequest(m: GetFileMetaRequest): seq<byte>
    requires ValidGetFileMetaRequest(m)
  {
    Encode(FieldsGetFileMetaRequest(m))
  }

  function SizeGetFileMetaRequest(m: GetFileMetaRequest): nat
    requires ValidGetFileMetaRequest(m)
  {
    Sized(m.filePath != [], StringSize(m.filePath))
  }

  function MergeGetFileMetaRequest(to: GetFileMetaRequest, from: GetFileMetaRequest): GetFileMetaRequest {
    to.(filePath := if from.filePath != [] then from.filePath else to.filePath)
  }

  function ApplyGetFileMetaRequest(m: GetFileMetaRequest, f: Field): Option<GetFileMetaRequest> {
    if f.LenField? && f.num == 1 then if Utf8(f.payload) then Some(m.(filePath := f.payload)) else None
    else Some(m)
  }

  /** The size that ByteSizeLong adds up is the length of what is written. */
  lemma SizeIsLengthGetFileMetaRequest(m: GetFileMetaRequest)
    requires ValidGetFileMetaRequest(m)
    ensures |SerializeGetFileMetaRequest(m)| == SizeGetFileMetaRequest(m)
  {
    var f1 := FieldsGetFileMetaRequest(m);
    LengthOfLen(1, |m.filePath|, m.filePath);
    assert |Encode(f1)| == (if f1.present then |EncodeField(f1.field)| else 0) + |Encode(f1.rest)|;
  }

  /** Reading a serialised message into to merges the two if its strings are UTF-8, and fails if not. */
  lemma IntoGetFileMetaRequest(to: GetFileMetaRequest, m: GetFileMetaRequest)
    requires ValidGetFileMetaRequest(m)
    ensures AllProper(FieldsGetFileMetaRequest(m))
    ensures ApplyAll(ApplyGetFileMetaRequest, FieldsGetFileMetaRequest(m), to) ==
            if TextGetFileMetaRequest(m) then Some(MergeGetFileMetaRequest(to, m)) else None
  {
    var f1 := FieldsGetFileMetaRequest(m);
    var t1 := to.(filePath := if m.filePath != [] then m.filePath else to.filePath);
    ApplyText(ApplyGetFileMetaRequest, f1, to, t1, Utf8(m.filePath));
    assert AllProper(f1);
  }

  // ---------- FileMeta ----------

  datatype FileMeta = FileMeta(name: seq<byte>, path: seq<byte>, size: int, mtime: int, ctime: int, mode: nat,
    md5: seq<byte>, isDirectory: bool, isPresent: bool)

  const EMPTY_FILE_META := FileMeta([], [], 0, 0, 0, 0, [], false, false)

  predicate ValidFileMeta(m: FileMeta) {
    IsString(m.name) && IsString(m.path) && IsInt64(m.size) && IsInt64(m.mtime) && IsInt64(m.ctime) &&
      m.mode < TWO_32 && IsString(m.md5)
  }

  predicate TextFileMeta(m: FileMeta) {
    Utf8(m.name) && Utf8(m.path) && Utf8(m.md5)
  }

  function FieldsFileMetaFrom7(m: FileMeta): Fields
    requires ValidFileMeta(m)
  {
    Next(m.md5 != [], StringField(7, m.md5),
    Next(m.isDirectory, Flag(8),
    Next(m.isPresent, Flag(9),
    End)))
  }

  function FieldsFileMetaFrom4(m: FileMeta): Fields
    requires ValidFileMeta(m)
  {
    Next(m.mtime != 0, Number(4, m.mtime),
    Next(m.ctime != 0, Number(5, m.ctime),
    Next(m.mode != 0, VarintField(6, m.mode),
    FieldsFileMetaFrom7(m))))
  }

  function FieldsFileMeta(m: FileMeta): Fields
    requires ValidFileMeta(m)
  {
    Next(m.name != [], StringField(1, m.name),
    Next(m.path != [], StringField(2, m.path),
    Next(m.size != 0, Number(3, m.size),
    FieldsFileMetaFrom4(m))))
  }

  function SerializeFileMeta(m: FileMeta): seq<byte>
    requires ValidFileMeta(m)
  {
    Encode(FieldsFileMeta(m))
  }

  function SizeFileMeta(m: FileMeta): nat
    requires ValidFileMeta(m)
  {
    Sized(m.name != [], StringSize(m.name)) +
    Sized(m.path != [], StringSize(m.path)) +
    Sized(m.md5 != [], StringSize(m.md5)) +
    Sized(m.size != 0, VarintSize(Unsigned64(m.size))) +
    Sized(m.mtime != 0, VarintSize(Unsigned64(m.mtime))) +
    Sized(m.ctime != 0, VarintSize(Unsigned64(m.ctime))) +
    Sized(m.mode != 0, VarintSize(m.mode)) +
    Sized(m.isDirectory, 1) +
    Sized(m.isPresent, 1)
  }

  function MergeFileMeta(to: FileMeta, from: FileMeta): FileMeta {
    to.(name := if from.name != [] then from.name else to.name,
        path := if from.path != [] then from.path else to.path,
        md5 := if from.md5 != [] then from.md5 else to.md5,
        size := if from.size != 0 then from.size else to.size,
        mtime := if from.mtime != 0 then from.mtime else to.mtime,
        ctime := if from.ctime != 0 then from.ctime else to.ctime,
        mode := if from.mode != 0 then from.mode else to.mode,
        isDirectory := if from.isDirectory then from.isDirectory else to.isDirectory,
        isPresent := if from.isPresent then from.isPresent else to.isPresent)
  }

  function ApplyFileMeta(m: FileMeta, f: Field): Option<FileMeta> {
    if f.LenField? && f.num == 1 then if Utf8(f.payload) then Some(m.(name := f.payload)) else None
    else if f.LenField? && f.num == 2 then if Utf8(f.payload) then Some(m.(path := f.payload)) else None
    else if f.VarintField? && f.num == 3 then Some(m.(size := Signed64(f.value)))
    else if f.VarintField? && f.num == 4 then Some(m.(mtime := Signed64(f.value)))
    else if f.VarintField? && f.num == 5 then Some(m.(ctime := Signed64(f.value)))
    else if f.VarintField? && f.num == 6 then Some(m.(mode := f.value % TWO_32))
    else if f.LenField? && f.num == 7 then if Utf8(f.payload) then Some(m.(md5 := f.payload)) else None
    else if f.VarintField? && f.num == 8 then Some(m.(isDirectory := f.value != 0))
    else if f.VarintField? && f.num == 9 then Some(m.(isPresent := f.value != 0))
    else Some(m)
  }

  lemma LengthOfFileMetaFrom7(m: FileMeta)
    requires ValidFileMeta(m)
    ensures |Encode(FieldsFileMetaFrom7(m))| ==
      Sized(m.md5 != [], StringSize(m.md5)) +
      Sized(m.isDirectory, 1) +
      Sized(m.isPresent, 1)
  {
    var f1 := FieldsFileMetaFrom7(m);
    var f2 := f1.rest;
    var f3 := f2.rest;
    LengthOfLen(7, |m.md5|, m.md5);
    LengthOfVarint(8, 1);
    LengthOfVarint(9, 1);
    assert |Encode(f3)| == (if f3.present then |EncodeField(f3.field)| else 0) + |Encode(f3.rest)|;
    assert |Encode(f2)| == (if f2.present then |EncodeField(f2.field)| else 0) + |Encode(f2.rest)|;
    assert |Encode(f1)| == (if f1.present then |EncodeField(f1.field)| else 0) + |Encode(f1.rest)|;
  }

  lemma IntoFileMetaFrom7(to: FileMeta, m: FileMeta)
    requires ValidFileMeta(m)
    ensures AllProper(FieldsFileMetaFrom7(m))
    ensures ApplyAll(ApplyFileMeta, FieldsFileMetaFrom7(m), to) ==
      if !Utf8(m.md5) then None
      else Some(to.(md5 := if m.md5 != [] then m.md5 else to.md5,
                    isDirectory := if m.isDirectory then m.isDirectory else to.isDirectory,
                    isPresent := if m.isPresent then m.isPresent else to.isPresent))
  {
    var f1 := FieldsFileMetaFrom7(m);
    var t1 := to.(md5 := if m.md5 != [] then m.md5 else to.md5);
    ApplyText(ApplyFileMeta, f1, to, t1, Utf8(m.md5));
    var f2 := f1.rest;
    var t2 := t1.(isDirectory := if m.isDirectory then m.isDirectory else t1.isDirectory);
    ApplyNext(ApplyFileMeta, f2, t1, t2);
    var f3 := f2.rest;
    var t3 := t2.(isPresent := if m.isPresent then m.isPresent else t2.isPresent);
    ApplyNext(ApplyFileMeta, f3, t2, t3);
    assert AllProper(f3);
    assert AllProper(f2);
    assert AllProper(f1);
  }

  lemma LengthOfFileMetaFrom4(m: FileMeta)
    requires ValidFileMeta(m)
    ensures |Encode(FieldsFileMetaFrom4(m))| ==
      Sized(m.mtime != 0, VarintSize(Unsigned64(m.mtime))) +
      Sized(m.ctime != 0, VarintSize(Unsigned64(m.ctime))) +
      Sized(m.mode != 0, VarintSize(m.mode)) +
      Sized(m.md5 != [], StringSize(m.md5)) +
      Sized(m.isDirectory, 1) +
      Sized(m.isPresent, 1)
  {
    Int64RoundTrip(m.mtime);
    Int64RoundTrip(m.ctime);
    LengthOfFileMetaFrom7(m);
    var f1 := FieldsFileMetaFrom4(m);
    var f2 := f1.rest;
    var f3 := f2.rest;
    LengthOfVarint(4, Unsigned64(m.mtime));
    LengthOfVarint(5, Unsigned64(m.ctime));
    LengthOfVarint(6, m.mode);
    assert |Encode(f3)| == (if f3.present then |EncodeField(f3.field)| else 0) + |Encode(f3.rest)|;
    assert |Encode(f2)| == (if f2.present then |EncodeField(f2.field)| else 0) + |Encode(f2.rest)|;
    assert |Encode(f1)| == (if f1.present then |EncodeField(f1.field)| else 0) + |Encode(f1.rest)|;
  }

  lemma IntoFileMetaFrom4(to: FileMeta, m: FileMeta)
    requires ValidFileMeta(m)
    ensures AllProper(FieldsFileMetaFrom4(m))
    ensures ApplyAll(ApplyFileMeta, FieldsFileMetaFrom4(m), to) ==
      if !Utf8(m.md5) then None
      else Some(to.(mtime := if m.mtime != 0 then m.mtime else to.mtime,
                    ctime := if m.ctime != 0 then m.ctime else to.ctime,
                    mode := if m.mode != 0 then m.mode else to.mode,
                    md5 := if m.md5 != [] then m.md5 else to.md5,
                    isDirectory := if m.isDirectory then m.isDirectory else to.isDirectory,
                    isPresent := if m.isPresent then m.isPresent else to.isPresent))
  {
    Int64RoundTrip(m.mtime);
    Int64RoundTrip(m.ctime);
    var f1 := FieldsFileMetaFrom4(m);
    var t1 := to.(mtime := if m.mtime != 0 then m.mtime else to.mtime);
    ApplyNext(ApplyFileMeta, f1, to, t1);
    var f2 := f1.rest;
    var t2 := t1.(ctime := if m.ctime != 0 then m.ctime else t1.ctime);
    ApplyNext(ApplyFileMeta, f2, t1, t2);
    var f3 := f2.rest;
    var t3 := t2.(mode := if m.mode != 0 then m.mode else t2.mode);
    ApplyNext(ApplyFileMeta, f3, t2, t3);
    IntoFileMetaFrom7(t3, m);
    assert AllProper(f3);
    assert AllProper(f2);
    assert AllProper(f1);
  }

  lemma LengthOfFileMetaUpTo2(m: FileMeta)
    requires ValidFileMeta(m)
    ensures |Encode(FieldsFileMeta(m))| ==
      Sized(m.name != [], StringSize(m.name)) +
      Sized(m.path != [], StringSize(m.path)) +
      |Encode(FieldsFileMeta(m).rest.rest)|
  {
    var f1 := FieldsFileMeta(m);
    var f2 := f1.rest;
    LengthOfLen(1, |m.name|, m.name);
    LengthOfLen(2, |m.path|, m.path);
    assert |Encode(f2)| == (if f2.present then |EncodeField(f2.field)| else 0) + |Encode(f2.rest)|;
    assert |Encode(f1)| == (if f1.present then |EncodeField(f1.field)| else 0) + |Encode(f1.rest)|;
  }

  lemma LengthOfFileMetaFrom3(m: FileMeta)
    requires ValidFileMeta(m)
    ensures |Encode(FieldsFileMeta(m).rest.rest)| ==
      Sized(m.size != 0, VarintSize(Unsigned64(m.size))) + |Encode(FieldsFileMetaFrom4(m))|
  {
    Int64RoundTrip(m.size);
    LengthOfVarint(3, Unsigned64(m.size));
    var f3 := FieldsFileMeta(m).rest.rest;
    assert |Encode(f3)| == (if f3.present then |EncodeField(f3.field)| else 0) + |Encode(f3.rest)|;
  }

  /** The size that ByteSizeLong adds up is the length of what is written. */
  lemma SizeIsLengthFileMeta(m: FileMeta)
    requires ValidFileMeta(m)
    ensures |SerializeFileMeta(m)| == SizeFileMeta(m)
  {
    LengthOfFileMetaUpTo2(m);
    LengthOfFileMetaFrom3(m);
    LengthOfFileMetaFrom4(m);
  }

  /** The first two fields, which are the strings. */
  lemma IntoFileMetaUpTo2(to: FileMeta, m: FileMeta)
    requires ValidFileMeta(m)
    ensures
      var t2 := to.(name := if m.name != [] then m.name else to.name, path := if m.path != [] then m.path else to.path);
      ApplyAll(ApplyFileMeta, FieldsFileMeta(m), to) ==
      if Utf8(m.name) && Utf8(m.path) then ApplyAll(ApplyFileMeta, FieldsFileMeta(m).rest.rest, t2) else None
  {
    var f1 := FieldsFileMeta(m);
    var t1 := to.(name := if m.name != [] then m.name else to.name);
    ApplyText(ApplyFileMeta, f1, to, t1, Utf8(m.name));
    var f2 := f1.rest;
    var t2 := t1.(path := if m.path != [] then m.path else t1.path);
    ApplyText(ApplyFileMeta, f2, t1, t2, Utf8(m.path));
  }

  lemma ProperFileMeta(m: FileMeta)
    requires ValidFileMeta(m) && AllProper(FieldsFileMetaFrom4(m))
    ensures AllProper(FieldsFileMeta(m))
  {
    Int64RoundTrip(m.size);
    var f1 := FieldsFileMeta(m);
    assert AllProper(f1.rest.rest);
    assert AllProper(f1.rest);
  }

  /** Reading a serialised message into to merges the two if its strings are UTF-8, and fails if not. */
  lemma IntoFileMeta(to: FileMeta, m: FileMeta)
    requires ValidFileMeta(m)
    ensures AllProper(FieldsFileMeta(m))
    ensures ApplyAll(ApplyFileMeta, FieldsFileMeta(m), to) ==
            if TextFileMeta(m) then Some(MergeFileMeta(to, m)) else None
  {
    Int64RoundTrip(m.size);
    IntoFileMetaUpTo2(to, m);
    var f3 := FieldsFileMeta(m).rest.rest;
    var t2 := to.(name := if m.name != [] then m.name else to.name, path := if m.path != [] then m.path else to.path);
    var t3 := t2.(size := if m.size != 0 then m.size else t2.size);
    ApplyNext(ApplyFileMeta, f3, t2, t3);
    IntoFileMetaFrom4(t3, m);
    ProperFileMeta(m);
  }
}
