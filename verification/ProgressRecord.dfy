/** The progress file: three lines written with operator<< and read back with operator>>. */
module ProgressRecord {
  import opened Bytes
  import opened Results

  /** An offset and the total size it was recorded against; (0, 0) stands for no progress. */
  datatype Record = Record(offset: nat, total: nat)

  predicate IsSpace(b: byte) {
    9 <= b <= 13 || b == 32
  }

  predicate IsDigit(b: byte) {
    48 <= b <= 57
  }

  // ---------- writing ----------

  function Decimal(n: nat): (r: seq<byte>)
    ensures r != [] && forall i :: 0 <= i < |r| ==> IsDigit(r[i])
  {
    if n < 10 then [48 + n] else Decimal(n / 10) + [48 + n % 10]
  }

  /** What saveProgress writes. */
  function SavedText(path: Path, offset: nat, total: nat): seq<byte> {
    path + ([NEWLINE] + (Decimal(offset) + ([NEWLINE] + (Decimal(total) + [NEWLINE]))))
  }

  // ---------- reading ----------

  function SkipSpace(s: seq<byte>): seq<byte> {
    if s != [] && IsSpace(s[0]) then SkipSpace(s[1..]) else s
  }

  /** The characters up to the next space. */
  function Word(s: seq<byte>): (r: seq<byte>)
    ensures |r| <= |s| && s[..|r|] == r
    ensures forall i :: 0 <= i < |r| ==> !IsSpace(r[i])
  {
    if s == [] || IsSpace(s[0]) then [] else [s[0]] + Word(s[1..])
  }

  datatype Number = Number(value: nat, rest: seq<byte>)

  function ReadDigits(s: seq<byte>, acc: nat): Number {
    if s == [] || !IsDigit(s[0]) then Number(acc, s) else ReadDigits(s[1..], 10 * acc + (s[0] - 48))
  }

  function ReadNumber(s: seq<byte>): Number {
    ReadDigits(SkipSpace(s), 0)
  }

  /** What loadProgress returns for path when its progress file holds text. */
  function Loaded(text: seq<byte>, path: Path): Record {
    var start := SkipSpace(text);
    var saved := Word(start);
    if saved != path then Record(0, 0)
    else
      var offset := ReadNumber(start[|saved|..]);
      var total := ReadNumber(offset.rest);
      Record(offset.value, total.value)
  }

  // ---------- reading what was written ----------

  lemma {:induction false} DigitsRoundTrip(n: nat, rest: seq<byte>)
    ensures ReadDigits(Decimal(n) + rest, 0) == ReadDigits(rest, n)
  {
    if n < 10 {
      assert ([48 + n] + rest)[1..] == rest;
    } else {
      var d: byte := 48 + n % 10;
      assert Decimal(n) + rest == Decimal(n / 10) + ([d] + rest);
      DigitsRoundTrip(n / 10, [d] + rest);
      assert ([d] + rest)[1..] == rest;
    }
  }

  lemma NumberRoundTrip(n: nat, rest: seq<byte>)
    requires rest != [] && !(48 <= rest[0] <= 57)
    ensures ReadNumber([NEWLINE] + (Decimal(n) + rest)) == Number(n, rest)
  {
    var s := Decimal(n) + rest;
    assert ([NEWLINE] + s)[1..] == s;
    assert s[0] == Decimal(n)[0];
    assert SkipSpace(s) == s && SkipSpace([NEWLINE] + s) == s;
    DigitsRoundTrip(n, rest);
  }

  lemma {:induction false} WordOf(w: seq<byte>, rest: seq<byte>)
    requires (forall i :: 0 <= i < |w| ==> !IsSpace(w[i])) && rest != [] && IsSpace(rest[0])
    ensures Word(w + rest) == w
  {
    if w == [] {
      assert w + rest == rest;
    } else {
      assert (w + rest)[1..] == w[1..] + rest;
      WordOf(w[1..], rest);
    }
  }

  predicate SpaceFree(path: Path) {
    forall i :: 0 <= i < |path| ==> !IsSpace(path[i])
  }

  /** The paths whose records can be loaded again. */
  predicate Loadable(path: Path) {
    path != [] && SpaceFree(path)
  }

  /** White space is what the stream operators skip: tab, line feed, vertical tab, form feed, carriage return
      and blank. */
  lemma LoadableIff(path: Path)
    ensures Loadable(path) <==> path != [] && forall b :: b in path ==> b !in {9, 10, 11, 12, 13, 32}
  {
    forall i | 0 <= i < |path|
      ensures IsSpace(path[i]) <==> path[i] in {9, 10, 11, 12, 13, 32}
    {
    }
    if Loadable(path) {
      forall b | b in path
        ensures b !in {9, 10, 11, 12, 13, 32}
      {
        var i :| 0 <= i < |path| && path[i] == b;
      }
    } else if path != [] {
      var i :| 0 <= i < |path| && IsSpace(path[i]);
      assert path[i] in path;
    }
  }

  /** A saved record loads back exactly when its path is nonempty and free of white space; for every
      other path the load reports no progress. */
  lemma LoadSaved(path: Path, offset: nat, total: nat)
    ensures Loaded(SavedText(path, offset, total), path) ==
            if Loadable(path) then Record(offset, total) else Record(0, 0)
  {
    var text := SavedText(path, offset, total);
    var afterPath := [NEWLINE] + (Decimal(offset) + ([NEWLINE] + (Decimal(total) + [NEWLINE])));
    if Loadable(path) {
      assert SkipSpace(text) == text;
      WordOf(path, afterPath);
      assert text[|path|..] == afterPath;
      NumberRoundTrip(offset, [NEWLINE] + (Decimal(total) + [NEWLINE]));
      NumberRoundTrip(total, [NEWLINE]);
    } else if path == [] {
      assert text == afterPath;
      var s := Decimal(offset) + ([NEWLINE] + (Decimal(total) + [NEWLINE]));
      assert text[1..] == s;
      assert s[0] == Decimal(offset)[0];
      assert SkipSpace(text) == s;
      assert Word(s) != [];
    }
  }

  /** loadProgress, given what saveProgress last wrote for the path, if its progress file exists: the text is
      read back, which by LoadSaved comes to the record itself or to nothing. */
  function LoadProgress(path: Path, saved: Option<Record>): Record {
    match saved
    case None => Record(0, 0)
    case Some(r) =>
      LoadSaved(path, r.offset, r.total);
      assert Loaded(SavedText(path, r.offset, r.total), path) == if Loadable(path) then r else Record(0, 0);
      if Loadable(path) then r else Record(0, 0)
  }

  lemma LoadProgressIs(path: Path, saved: Option<Record>)
    ensures LoadProgress(path, saved) == if Loadable(path) && saved.Some? then saved.value else Record(0, 0)
  {
  }

  lemma LoadProgressReads(path: Path, r: Record)
    ensures LoadProgress(path, Some(r)) == Loaded(SavedText(path, r.offset, r.total), path)
  {
    LoadSaved(path, r.offset, r.total);
  }

  /** Progress counts only if both its numbers are positive. */
  predicate HasProgress(r: Record) {
    r.offset > 0 && r.total > 0
  }
}
