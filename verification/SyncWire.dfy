/** The metadata part of a sync session: what the client sends for each task, and how the server
    reads it back. The two ends are written separately, so both are modelled separately. */
module SyncWire {
  import opened Bytes
  import opened Results

  datatype TaskMeta = TaskMeta(isDir: bool, src: Path, dest: Path, mode: nat, size: int)

  /** The string that a NUL-terminated buffer holds. */
  function CString(s: seq<byte>): seq<byte> {
    if s == [] || s[0] == NUL then [] else [s[0]] + CString(s[1..])
  }

  lemma {:induction false} CStringFaithfulIffNulFree(s: seq<byte>)
    ensures CString(s) == s <==> NUL !in s
  {
    if s != [] && s[0] != NUL {
      CStringFaithfulIffNulFree(s[1..]);
      assert s == [s[0]] + s[1..];
      if CString(s) == s {
        assert CString(s[1..]) == CString(s)[1..] == s[1..];
      }
    }
  }

  function Concat(parts: seq<seq<byte>>): seq<byte> {
    if parts == [] then [] else parts[0] + Concat(parts[1..])
  }

  // ---------- the client's side ----------

  /** What the types of the sent fields can hold. */
  predicate Sendable(t: TaskMeta) {
    && |t.src| < Pow256(8)
    && |t.dest| < Pow256(8)
    && t.mode < Pow256(4)
    && Fits(t.size, 8)
    && (t.isDir ==> t.size == 0)
  }

  /** The buffers passed to client.send for one task, in order. */
  function TaskSends(t: TaskMeta): seq<seq<byte>>
    requires Sendable(t)
  {
    Widths();
    [EncodeSigned(if t.isDir then 1 else 0, 4),
     LeBytes(|t.src|, 8), t.src,
     LeBytes(|t.dest|, 8), t.dest,
     LeBytes(t.mode, 4)] +
    if t.isDir then [] else [EncodeSigned(t.size, 8)]
  }

  function EncodeTask(t: TaskMeta): seq<byte>
    requires Sendable(t)
  {
    Concat(TaskSends(t))
  }

  function EncodeTasks(ts: seq<TaskMeta>): seq<byte>
    requires forall t :: t in ts ==> Sendable(t)
  {
    if ts == [] then [] else EncodeTask(ts[0]) + EncodeTasks(ts[1..])
  }

  // ---------- the server's side ----------

  /** A length and that many bytes, rebuilt as a C string. */
  function TakeString(b: seq<byte>): Option<Read<Path>> {
    var len :- Take(b, 8);
    var chars :- Take(len.rest, LeValue(len.value));
    Some(Read(CString(chars.value), chars.rest))
  }

  /** The fields that every task has. */
  function DecodeHead(b: seq<byte>): Option<Read<TaskMeta>> {
    var kind :- Take(b, 4);
    var src :- TakeString(kind.rest);
    var dest :- TakeString(src.rest);
    var mode :- Take(dest.rest, 4);
    Some(Read(TaskMeta(DecodeSigned(kind.value) == 1, src.value, dest.value, LeValue(mode.value), 0), mode.rest))
  }

  function DecodeTask(b: seq<byte>): Option<Read<TaskMeta>> {
    var head :- DecodeHead(b);
    if head.value.isDir then Some(head)
    else
      var size :- Take(head.rest, 8);
      Some(Read(head.value.(size := DecodeSigned(size.value)), size.rest))
  }

  /** The server's loop over the announced number of tasks; a count that is not positive reads none. */
  function DecodeMany<T>(decode: seq<byte> -> Option<Read<T>>, b: seq<byte>, count: int): Option<Read<seq<T>>>
    decreases count
  {
    if count <= 0 then Some(Read([], b))
    else
      var first :- decode(b);
      var others :- DecodeMany(decode, first.rest, count - 1);
      Some(Read([first.value] + others.value, others.rest))
  }

  function DecodeTasks(b: seq<byte>, count: int): Option<Read<seq<TaskMeta>>> {
    DecodeMany(DecodeTask, b, count)
  }

  /** Tasks already read, put in front of what is read next. */
  function Prepend<T>(ts: seq<T>, next: Option<Read<seq<T>>>): Option<Read<seq<T>>> {
    match next
    case None => None
    case Some(r) => Some(Read(ts + r.value, r.rest))
  }

  /** What reading comes to when ts have been read and left more are to be read from rest. */
  ghost function Whole<T>(decode: seq<byte> -> Option<Read<T>>, ts: seq<T>, rest: seq<byte>,
                          left: int): Option<Read<seq<T>>> {
    Prepend(ts, DecodeMany(decode, rest, left))
  }

  lemma WholeAtFirst<T>(decode: seq<byte> -> Option<Read<T>>, b: seq<byte>, count: int)
    ensures Whole(decode, [], b, count) == DecodeMany(decode, b, count)
  {
    var all := DecodeMany(decode, b, count);
    if all.Some? {
      assert [] + all.value.value == all.value.value;
    }
  }

  lemma WholeAdvance<T>(decode: seq<byte> -> Option<Read<T>>, ts: seq<T>, rest: seq<byte>, left: int, t: T,
                        after: seq<byte>)
    requires left > 0 && decode(rest) == Some(Read(t, after))
    ensures Whole(decode, ts, rest, left) == Whole(decode, ts + [t], after, left - 1)
  {
    var others := DecodeMany(decode, after, left - 1);
    if others.Some? {
      assert ts + ([t] + others.value.value) == ts + [t] + others.value.value;
    }
  }

  lemma WholeFails<T>(decode: seq<byte> -> Option<Read<T>>, ts: seq<T>, rest: seq<byte>, left: int)
    requires left > 0 && decode(rest) == None
    ensures Whole(decode, ts, rest, left) == None
  {
  }

  lemma WholeAtEnd<T>(decode: seq<byte> -> Option<Read<T>>, ts: seq<T>, rest: seq<byte>, left: int)
    requires left <= 0
    ensures Whole(decode, ts, rest, left) == Some(Read(ts, rest))
  {
    assert ts + [] == ts;
  }

  // ---------- the two sides agree ----------

  predicate NulFree(t: TaskMeta) {
    NUL !in t.src && NUL !in t.dest
  }

  lemma StringRoundTrip(s: Path, rest: seq<byte>)
    requires |s| < Pow256(8) && NUL !in s
    ensures TakeString(LeBytes(|s|, 8) + (s + rest)) == Some(Read(s, rest))
  {
    TakeFront(LeBytes(|s|, 8), s + rest);
    TakeFront(s, rest);
    LeRoundTrip(|s|, 8);
    CStringFaithfulIffNulFree(s);
  }

  function HeadBytes(t: TaskMeta, rest: seq<byte>): seq<byte>
    requires Sendable(t)
  {
    Widths();
    EncodeSigned(if t.isDir then 1 else 0, 4) +
    (LeBytes(|t.src|, 8) + (t.src + (LeBytes(|t.dest|, 8) + (t.dest + (LeBytes(t.mode, 4) + rest)))))
  }

  lemma HeadRoundTrip(t: TaskMeta, rest: seq<byte>)
    requires Sendable(t) && NulFree(t)
    ensures DecodeHead(HeadBytes(t, rest)) == Some(Read(t.(size := 0), rest))
  {
    Widths();
    var afterMode := LeBytes(t.mode, 4) + rest;
    var afterSrc := LeBytes(|t.dest|, 8) + (t.dest + afterMode);
    TakeFront(EncodeSigned(if t.isDir then 1 else 0, 4), LeBytes(|t.src|, 8) + (t.src + afterSrc));
    SignedRoundTrip(if t.isDir then 1 else 0, 4);
    StringRoundTrip(t.src, afterSrc);
    StringRoundTrip(t.dest, afterMode);
    TakeFront(LeBytes(t.mode, 4), rest);
    LeRoundTrip(t.mode, 4);
  }

  lemma ConcatCons(a: seq<byte>, parts: seq<seq<byte>>)
    ensures Concat([a] + parts) == a + Concat(parts)
  {
    assert ([a] + parts)[1..] == parts;
  }

  lemma ConcatSix(a: seq<byte>, b: seq<byte>, c: seq<byte>, d: seq<byte>, e: seq<byte>, f: seq<byte>,
                  parts: seq<seq<byte>>, rest: seq<byte>)
    ensures Concat([a, b, c, d, e, f] + parts) + rest == a + (b + (c + (d + (e + (f + (Concat(parts) + rest))))))
  {
    ConcatCons(f, parts);
    ConcatCons(e, [f] + parts);
    ConcatCons(d, [e] + ([f] + parts));
    ConcatCons(c, [d] + ([e] + ([f] + parts)));
    ConcatCons(b, [c] + ([d] + ([e] + ([f] + parts))));
    ConcatCons(a, [b] + ([c] + ([d] + ([e] + ([f] + parts)))));
    assert [a, b, c, d, e, f] + parts == [a] + ([b] + ([c] + ([d] + ([e] + ([f] + parts)))));
  }

  lemma ConcatHead(t: TaskMeta, rest: seq<byte>)
    requires Sendable(t)
    ensures EncodeTask(t) + rest == HeadBytes(t, (if t.isDir then [] else EncodeSigned(t.size, 8)) + rest)
  {
    Widths();
    var parts := if t.isDir then [] else [EncodeSigned(t.size, 8)];
    ConcatSix(EncodeSigned(if t.isDir then 1 else 0, 4), LeBytes(|t.src|, 8), t.src,
              LeBytes(|t.dest|, 8), t.dest, LeBytes(t.mode, 4), parts, rest);
    if !t.isDir {
      assert Concat(parts) == EncodeSigned(t.size, 8);
    }
  }

  lemma TaskRoundTrip(t: TaskMeta, rest: seq<byte>)
    requires Sendable(t) && NulFree(t)
    ensures DecodeTask(EncodeTask(t) + rest) == Some(Read(t, rest))
  {
    var size := if t.isDir then [] else EncodeSigned(t.size, 8);
    ConcatHead(t, rest);
    HeadRoundTrip(t, size + rest);
    if t.isDir {
      assert size + rest == rest;
    } else {
      TakeFront(size, rest);
      SignedRoundTrip(t.size, 8);
    }
  }

  lemma {:induction false} TasksRoundTrip(ts: seq<TaskMeta>, rest: seq<byte>)
    requires forall t :: t in ts ==> Sendable(t) && NulFree(t)
    ensures DecodeTasks(EncodeTasks(ts) + rest, |ts|) == Some(Read(ts, rest))
  {
    if ts == [] {
      assert EncodeTasks(ts) + rest == rest;
    } else {
      var tail := EncodeTasks(ts[1..]) + rest;
      assert EncodeTasks(ts) + rest == EncodeTask(ts[0]) + tail;
      TaskRoundTrip(ts[0], tail);
      TasksRoundTrip(ts[1..], rest);
      DecodeManyFirst(DecodeTask, EncodeTask(ts[0]) + tail, ts, tail, rest);
    }
  }

  lemma DecodeManyFirst<T>(decode: seq<byte> -> Option<Read<T>>, b: seq<byte>, ts: seq<T>, tail: seq<byte>,
                           rest: seq<byte>)
    requires ts != [] && decode(b) == Some(Read(ts[0], tail))
    requires DecodeMany(decode, tail, |ts[1..]|) == Some(Read(ts[1..], rest))
    ensures DecodeMany(decode, b, |ts|) == Some(Read(ts, rest))
  {
    assert |ts[1..]| == |ts| - 1;
    assert [ts[0]] + ts[1..] == ts;
  }

  // ---------- a cut stream never decodes ----------

  lemma TakeMore(b: seq<byte>, n: nat, more: seq<byte>)
    requires Take(b, n).Some?
    ensures Take(b + more, n) == Some(Read(Take(b, n).value.value, Take(b, n).value.rest + more))
  {
    assert (b + more)[..n] == b[..n] && (b + more)[n..] == b[n..] + more;
  }

  lemma TakeStringMore(b: seq<byte>, more: seq<byte>)
    requires TakeString(b).Some?
    ensures TakeString(b + more) == Some(Read(TakeString(b).value.value, TakeString(b).value.rest + more))
  {
    TakeMore(b, 8, more);
    var len := Take(b, 8).value;
    TakeMore(len.rest, LeValue(len.value), more);
  }

  lemma DecodeHeadMore(b: seq<byte>, more: seq<byte>)
    requires DecodeHead(b).Some?
    ensures DecodeHead(b + more) == Some(Read(DecodeHead(b).value.value, DecodeHead(b).value.rest + more))
  {
    TakeMore(b, 4, more);
    var kind := Take(b, 4).value;
    TakeStringMore(kind.rest, more);
    var src := TakeString(kind.rest).value;
    TakeStringMore(src.rest, more);
    var dest := TakeString(src.rest).value;
    TakeMore(dest.rest, 4, more);
  }

  /** The decoder only looks at bytes it consumes: later bytes are left over untouched. */
  lemma DecodeTaskMore(b: seq<byte>, more: seq<byte>)
    requires DecodeTask(b).Some?
    ensures DecodeTask(b + more) ==
            Some(Read(DecodeTask(b).value.value, DecodeTask(b).value.rest + more))
  {
    DecodeHeadMore(b, more);
    var head := DecodeHead(b).value;
    if !head.value.isDir {
      TakeMore(head.rest, 8, more);
    }
  }

  lemma {:induction false} DecodeManyMore<T>(decode: seq<byte> -> Option<Read<T>>, b: seq<byte>, count: int,
                                             more: seq<byte>)
    requires forall x, y :: decode(x).Some? ==>
             decode(x + y) == Some(Read(decode(x).value.value, decode(x).value.rest + y))
    requires DecodeMany(decode, b, count).Some?
    ensures DecodeMany(decode, b + more, count) ==
            Some(Read(DecodeMany(decode, b, count).value.value, DecodeMany(decode, b, count).value.rest + more))
    decreases count
  {
    if count > 0 {
      assert decode(b + more) == Some(Read(decode(b).value.value, decode(b).value.rest + more));
      DecodeManyMore(decode, decode(b).value.rest, count - 1, more);
    }
  }

  lemma DecodeTasksMore(b: seq<byte>, count: int, more: seq<byte>)
    requires DecodeTasks(b, count).Some?
    ensures DecodeTasks(b + more, count) ==
            Some(Read(DecodeTasks(b, count).value.value, DecodeTasks(b, count).value.rest + more))
  {
    forall x, y | DecodeTask(x).Some?
      ensures DecodeTask(x + y) == Some(Read(DecodeTask(x).value.value, DecodeTask(x).value.rest + y))
    {
      DecodeTaskMore(x, y);
    }
    DecodeManyMore(DecodeTask, b, count, more);
  }

  /** Metadata decodes from the first k bytes of a session exactly when k covers all of it, and then
      it decodes to what the client sent. */
  lemma TasksDecodeIffComplete(ts: seq<TaskMeta>, rest: seq<byte>, k: nat)
    requires forall t :: t in ts ==> Sendable(t) && NulFree(t)
    requires k <= |EncodeTasks(ts) + rest|
    ensures
      var whole := EncodeTasks(ts) + rest;
      DecodeTasks(whole[..k], |ts|) ==
      if k < |EncodeTasks(ts)| then None else Some(Read(ts, rest[..k - |EncodeTasks(ts)|]))
  {
    var enc := EncodeTasks(ts);
    if k < |enc| {
      CutTasksFail(ts, rest, k);
    } else {
      assert (enc + rest)[..k] == enc + rest[..k - |enc|];
      TasksRoundTrip(ts, rest[..k - |enc|]);
    }
  }

  lemma CutTasksFail(ts: seq<TaskMeta>, rest: seq<byte>, k: nat)
    requires forall t :: t in ts ==> Sendable(t) && NulFree(t)
    requires k < |EncodeTasks(ts)|
    ensures DecodeTasks((EncodeTasks(ts) + rest)[..k], |ts|) == None
  {
    var whole := EncodeTasks(ts) + rest;
    TasksRoundTrip(ts, rest);
    if DecodeTasks(whole[..k], |ts|).Some? {
      assert whole[..k] + whole[k..] == whole;
      DecodeTasksMore(whole[..k], |ts|, whole[k..]);
      assert false;
    }
  }
}
