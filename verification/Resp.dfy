/**
 The Redis serialization protocol (RESP2) as hiredis reads it: reply trees, their encoding, and an
 incremental parser given as a step function on "parse state and unread bytes". The parser is the
 specification that the reader in Reader.dfy is proved against; the laws of reading are proved here.
 */
module Resp {
  import opened Bytes

  datatype Reply =
    | Bulk(text: bytes)
    | Status(text: bytes)
    | Error(text: bytes)
    | Integer(value: int)
    | Nil
    | Array(elements: int, items: seq<Reply>)

  // ---------------------------------------------------------------- encoding

  /** The RESP2 form of a reply (sections "Simple strings" to "Arrays"). */
  function Encode(v: Reply): bytes {
    match v
    case Bulk(s) => [DOLLAR] + Number(|s|) + CRLF + s + CRLF
    case Status(s) => [PLUS] + s + CRLF
    case Error(s) => [MINUS] + s + CRLF
    case Integer(i) => [COLON] + Number(i) + CRLF
    case Nil => [DOLLAR] + Number(-1) + CRLF
    case Array(n, items) => [STAR] + Number(n) + CRLF + EncodeAll(items)
  }

  function EncodeAll(vs: seq<Reply>): bytes {
    if vs == [] then [] else Encode(vs[0]) + EncodeAll(vs[1..])
  }

  /** The depth at which an array is refused: the reader has nine task slots. */
  const MAX_DEPTH: nat := 8

  /** The replies that the reader can produce below `depth` open arrays. */
  ghost predicate Readable(v: Reply, depth: nat) {
    match v
    case Bulk(s) => |s| <= LLONG_MAX
    case Status(s) => OneLine(s)
    case Error(s) => OneLine(s)
    case Integer(i) => -LLONG_MAX <= i <= LLONG_MAX
    case Nil => true
    case Array(n, items) =>
      && depth < MAX_DEPTH
      && INT_MIN <= n <= INT_MAX
      && (if n < 0 then n != -1 && items == [] else |items| == n)
      && forall i :: 0 <= i < |items| ==> Readable(items[i], depth + 1)
  }

  // ----------------------------------------------------------------- parsing

  /** The type of the item being read; Unknown until its first byte has been consumed. */
  datatype ItemType = Unknown | TString | TArray | TInteger | TNil | TStatus | TError

  /** An array with `elements` slots of which the first |done| have been read. */
  datatype Frame = Frame(elements: nat, done: seq<Reply>)

  /** The open arrays, outermost first, and the type of the item being read inside the last one. */
  datatype ParseState = ParseState(frames: seq<Frame>, cur: ItemType)

  const START: ParseState := ParseState([], Unknown)

  datatype ReaderError = BadTypeByte(b: byte) | TooDeep

  /**
   One step. Blocked: more bytes are needed. Undefined: a number overflows a C integer. Next carries the
   new state, the bytes left, and the reply if the step completed a whole one.
   */
  datatype Step =
    | Blocked
    | Failed(error: ReaderError)
    | Undefined
    | Next(st: ParseState, rest: bytes, out: Option<Reply>)

  function TypeOf(b: byte): ItemType {
    if b == MINUS then TError
    else if b == PLUS then TStatus
    else if b == COLON then TInteger
    else if b == DOLLAR then TString
    else if b == STAR then TArray
    else Unknown
  }

  /** Where a finished item goes: into its parent's next slot, closing every array that it fills. */
  function Complete(frames: seq<Frame>, v: Reply): (r: (seq<Frame>, Option<Reply>))
    ensures r.1.Some? ==> r.0 == []
    ensures |r.0| <= |frames|
    decreases |frames|
  {
    if frames == [] then ([], Some(v))
    else
      var k := |frames| - 1;
      var done := frames[k].done + [v];
      if |done| == frames[k].elements then Complete(frames[..k], Array(frames[k].elements, done))
      else (frames[..k] + [frames[k].(done := done)], None)
  }

  function Finish(frames: seq<Frame>, v: Reply, rest: bytes): Step {
    var (frames', out) := Complete(frames, v);
    Next(ParseState(frames', Unknown), rest, out)
  }

  function LineStep(st: ParseState, r: bytes): Step {
    var k := FindCrlf(r);
    if k < 0 then Blocked
    else
      var line, rest := r[..k], r[k + 2..];
      if st.cur.TInteger? then
        match LongLongOf(line)
        case None => Undefined
        case Some(i) => Finish(st.frames, Integer(i), rest)
      else Finish(st.frames, if st.cur.TStatus? then Status(line) else Error(line), rest)
  }

  /** A bulk string. The two bytes after its text are skipped, whatever they are. */
  function BulkStep(st: ParseState, r: bytes): Step {
    var k := FindCrlf(r);
    if k < 0 then Blocked
    else
      match LongLongOf(r[..k])
      case None => Undefined
      case Some(len) =>
        if len < 0 then Finish(st.frames, Nil, r[k + 2..])
        else if |r| < k + 2 + len + 2 then Blocked
        else Finish(st.frames, Bulk(r[k + 2..k + 2 + len]), r[k + 2 + len + 2..])
  }

  function ArrayStep(st: ParseState, r: bytes): Step {
    if |st.frames| == MAX_DEPTH then Failed(TooDeep)
    else
      var k := FindCrlf(r);
      if k < 0 then Blocked
      else
        var rest := r[k + 2..];
        match LongLongOf(r[..k])
        case None => Undefined
        case Some(n) =>
          if n < INT_MIN || n > INT_MAX then Undefined
          else if n == -1 then Finish(st.frames, Nil, rest)
          else if n > 0 then Next(ParseState(st.frames + [Frame(n, [])], Unknown), rest, None)
          else Finish(st.frames, Array(n, []), rest)
  }

  function TypeStep(st: ParseState, r: bytes): Step {
    if r == [] then Blocked
    else if TypeOf(r[0]).Unknown? then Failed(BadTypeByte(r[0]))
    else Next(st.(cur := TypeOf(r[0])), r[1..], None)
  }

  function DoStep(st: ParseState, r: bytes): (s: Step)
    ensures s.Next? ==> |s.rest| < |r| && (s.out.Some? ==> s.st == START)
  {
    match st.cur
    case Unknown => TypeStep(st, r)
    case TString => BulkStep(st, r)
    case TArray => ArrayStep(st, r)
    case _ => LineStep(st, r)
  }

  /** What reading comes to: one reply, a wait for more bytes, an error, or undefined C arithmetic. */
  datatype Outcome =
    | Emitted(reply: Reply, rest: bytes)
    | Waiting(st: ParseState, rest: bytes)
    | Broken(error: ReaderError)
    | Unspecified

  /** Read up to and including the next complete reply. */
  function ReadOne(st: ParseState, r: bytes): (o: Outcome)
    ensures o.Emitted? ==> |o.rest| < |r|
    ensures o.Waiting? ==> |o.rest| <= |r| && DoStep(o.st, o.rest) == Blocked
    decreases |r|
  {
    match DoStep(st, r)
    case Blocked => Waiting(st, r)
    case Failed(e) => Broken(e)
    case Undefined => Unspecified
    case Next(st', rest, None) => ReadOne(st', rest)
    case Next(st', rest, Some(v)) => Emitted(v, rest)
  }

  /** All replies in a stream, and how it ends (never Emitted). */
  datatype Session = Session(replies: seq<Reply>, end: Outcome)

  function ReadAll(st: ParseState, r: bytes): (s: Session)
    ensures !s.end.Emitted?
    decreases |r|
  {
    match ReadOne(st, r)
    case Emitted(v, rest) =>
      var s := ReadAll(START, rest);
      Session([v] + s.replies, s.end)
    case end => Session([], end)
  }

  /** A session goes on with one more chunk; after an error nothing is read any more. */
  function FeedChunk(s: Session, chunk: bytes): (s': Session)
    requires !s.end.Emitted?
    ensures !s'.end.Emitted?
  {
    match s.end
    case Waiting(st, rest) =>
      var more := ReadAll(st, rest + chunk);
      Session(s.replies + more.replies, more.end)
    case _ => s
  }

  function FeedChunks(s: Session, chunks: seq<bytes>): (s': Session)
    requires !s.end.Emitted?
    ensures !s'.end.Emitted?
    decreases |chunks|
  {
    if chunks == [] then s else FeedChunks(FeedChunk(s, chunks[0]), chunks[1..])
  }

  // ------------------------------------------------------ chunk independence

  lemma LineExtends(r: bytes, t: bytes)
    requires FindCrlf(r) >= 0
    ensures var k := FindCrlf(r);
            && FindCrlf(r + t) == k
            && (r + t)[..k] == r[..k]
            && (r + t)[k + 2..] == r[k + 2..] + t
  {
    FindCrlfExtends(r, t);
  }

  lemma LineStepExtends(st: ParseState, r: bytes, t: bytes)
    requires !LineStep(st, r).Blocked?
    ensures var s := LineStep(st, r);
            LineStep(st, r + t) == if s.Next? then s.(rest := s.rest + t) else s
  {
    LineExtends(r, t);
  }

  lemma BulkStepExtends(st: ParseState, r: bytes, t: bytes)
    requires !BulkStep(st, r).Blocked?
    ensures var s := BulkStep(st, r);
            BulkStep(st, r + t) == if s.Next? then s.(rest := s.rest + t) else s
  {
    LineExtends(r, t);
    var k := FindCrlf(r);
    var len := LongLongOf(r[..k]);
    if len.Some? && len.value >= 0 {
      var end := k + 2 + len.value;
      assert (r + t)[k + 2..end] == r[k + 2..end];
      assert (r + t)[end + 2..] == r[end + 2..] + t;
    }
  }

  lemma ArrayStepExtends(st: ParseState, r: bytes, t: bytes)
    requires !ArrayStep(st, r).Blocked?
    ensures var s := ArrayStep(st, r);
            ArrayStep(st, r + t) == if s.Next? then s.(rest := s.rest + t) else s
  {
    if |st.frames| != MAX_DEPTH {
      LineExtends(r, t);
    }
  }

  /** Bytes that arrive later never change a step that was already possible. */
  lemma StepExtends(st: ParseState, r: bytes, t: bytes)
    requires !DoStep(st, r).Blocked?
    ensures var s := DoStep(st, r);
            DoStep(st, r + t) == if s.Next? then s.(rest := s.rest + t) else s
  {
    match st.cur
    case Unknown => assert (r + t)[1..] == r[1..] + t;
    case TString => BulkStepExtends(st, r, t);
    case TArray => ArrayStepExtends(st, r, t);
    case _ => LineStepExtends(st, r, t);
  }

  lemma {:induction false} ReadOneExtends(st: ParseState, r: bytes, t: bytes)
    ensures match ReadOne(st, r)
            case Emitted(v, rest) => ReadOne(st, r + t) == Emitted(v, rest + t)
            case Waiting(st', rest) => ReadOne(st, r + t) == ReadOne(st', rest + t)
            case end => ReadOne(st, r + t) == end
    decreases |r|
  {
    if !DoStep(st, r).Blocked? {
      StepExtends(st, r, t);
    }
    match DoStep(st, r)
    case Next(st', rest, None) => ReadOneExtends(st', rest, t);
    case _ =>
  }

  function Prefixed(v: Reply, s: Session): Session {
    Session([v] + s.replies, s.end)
  }

  lemma ReadAllStep(st: ParseState, r: bytes)
    ensures var o := ReadOne(st, r);
            ReadAll(st, r) == if o.Emitted? then Prefixed(o.reply, ReadAll(START, o.rest)) else Session([], o)
  {
    hide ReadOne;
  }

  lemma FeedPrefixed(v: Reply, s: Session, t: bytes)
    requires !s.end.Emitted?
    ensures FeedChunk(Prefixed(v, s), t) == Prefixed(v, FeedChunk(s, t))
  {
    hide ReadAll;
    if s.end.Waiting? {
      var more := ReadAll(s.end.st, s.end.rest + t);
      assert [v] + (s.replies + more.replies) == ([v] + s.replies) + more.replies;
    }
  }

  lemma FeedFirst(o: Outcome, t: bytes)
    requires !o.Emitted?
    ensures FeedChunk(Session([], o), t) == if o.Waiting? then ReadAll(o.st, o.rest + t) else Session([], o)
  {
    hide ReadAll;
    if o.Waiting? {
      var more := ReadAll(o.st, o.rest + t);
      assert [] + more.replies == more.replies;
    }
  }

  /** Reading r and later t is reading r + t: a reader may stop after any byte and resume. */
  lemma {:induction false} ReadAllExtends(st: ParseState, r: bytes, t: bytes)
    ensures ReadAll(st, r + t) == FeedChunk(ReadAll(st, r), t)
    decreases |r|
  {
    hide ReadAll, ReadOne, FeedChunk;
    ReadOneExtends(st, r, t);
    ReadAllStep(st, r);
    ReadAllStep(st, r + t);
    var o := ReadOne(st, r);
    if o.Emitted? {
      ReadAllExtends(START, o.rest, t);
      FeedPrefixed(o.reply, ReadAll(START, o.rest), t);
    } else {
      FeedFirst(o, t);
      if o.Waiting? {
        ReadAllStep(o.st, o.rest + t);
      }
    }
  }

  /** For every way of cutting a stream into chunks the replies and the final state are the same. */
  lemma {:induction false} ChunkIndependence(st: ParseState, r: bytes, chunks: seq<bytes>)
    ensures FeedChunks(ReadAll(st, r), chunks) == ReadAll(st, r + Flatten(chunks))
    decreases |chunks|
  {
    if chunks == [] {
      assert r + Flatten(chunks) == r;
    } else {
      var head, tail := chunks[0], chunks[1..];
      assert r + Flatten(chunks) == r + head + Flatten(tail);
      ReadAllExtends(st, r, head);
      ChunkIndependence(st, r + head, tail);
    }
  }

  // ------------------------------------------------- what a reader can produce

  /** At most eight open arrays, each not yet full, holding replies that belong at their depth. */
  ghost predicate GoodFrames(frames: seq<Frame>) {
    && |frames| <= MAX_DEPTH
    && forall k :: 0 <= k < |frames| ==> GoodFrame(frames[k], k)
  }

  ghost predicate GoodFrame(f: Frame, depth: nat) {
    && |f.done| < f.elements <= INT_MAX
    && forall i :: 0 <= i < |f.done| ==> Readable(f.done[i], depth + 1)
  }

  lemma {:induction false} CompleteKeepsGood(frames: seq<Frame>, v: Reply)
    requires GoodFrames(frames) && Readable(v, |frames|)
    ensures GoodFrames(Complete(frames, v).0)
    ensures Complete(frames, v).1.Some? ==> Readable(Complete(frames, v).1.value, 0)
    decreases |frames|
  {
    if frames != [] {
      var k := |frames| - 1;
      assert GoodFrame(frames[k], k);
      var done := frames[k].done + [v];
      if |done| == frames[k].elements {
        CompleteKeepsGood(frames[..k], Array(frames[k].elements, done));
      }
    }
  }

  lemma LineIsOneLine(r: bytes)
    requires FindCrlf(r) >= 0
    ensures OneLine(r[..FindCrlf(r)])
  {
  }

  /** The stack invariant is kept by every step on every byte stream. */
  lemma StepKeepsGood(st: ParseState, r: bytes)
    requires GoodFrames(st.frames)
    ensures var s := DoStep(st, r);
            s.Next? ==> GoodFrames(s.st.frames) && (s.out.Some? ==> Readable(s.out.value, 0))
  {
    hide Complete, LongLongOf, FindCrlf;
    var k := FindCrlf(r);
    if k >= 0 && !st.cur.Unknown? {
      var line := r[..k];
      ReadLongLongRange(line);
      LineIsOneLine(r);
      var s := DoStep(st, r);
      if s.Next? {
        match st.cur
        case TString =>
          var len := LongLongOf(line).value;
          CompleteKeepsGood(st.frames, if len < 0 then Nil else Bulk(r[k + 2..k + 2 + len]));
        case TArray =>
          var n := LongLongOf(line).value;
          if n <= 0 {
            CompleteKeepsGood(st.frames, if n == -1 then Nil else Array(n, []));
          }
        case TInteger => CompleteKeepsGood(st.frames, Integer(LongLongOf(line).value));
        case TStatus => CompleteKeepsGood(st.frames, Status(line));
        case _ => CompleteKeepsGood(st.frames, Error(line));
      }
    }
  }

  lemma {:induction false} ReadOneKeepsGood(st: ParseState, r: bytes)
    requires GoodFrames(st.frames)
    ensures match ReadOne(st, r)
            case Emitted(v, _) => Readable(v, 0)
            case Waiting(st', _) => GoodFrames(st'.frames)
            case _ => true
    decreases |r|
  {
    StepKeepsGood(st, r);
    match DoStep(st, r)
    case Next(st', rest, None) => ReadOneKeepsGood(st', rest);
    case _ =>
  }

  // -------------------------------------------------------------- round trip

  /** Reading goes on after an item has been completed. */
  function Resume(frames: seq<Frame>, v: Reply, rest: bytes): Outcome {
    var (frames', out) := Complete(frames, v);
    if out.Some? then Emitted(out.value, rest) else ReadOne(ParseState(frames', Unknown), rest)
  }

  /** Reading the type byte and finding the line that follows it. */
  lemma ReadHeader(frames: seq<Frame>, b: byte, line: bytes, t: bytes)
    requires !TypeOf(b).Unknown? && OneLine(line)
    ensures ReadOne(ParseState(frames, Unknown), [b] + line + CRLF + t)
         == ReadOne(ParseState(frames, TypeOf(b)), line + CRLF + t)
    ensures FindCrlf(line + CRLF + t) == |line|
    ensures (line + CRLF + t)[..|line|] == line && (line + CRLF + t)[|line| + 2..] == t
  {
    var r := [b] + line + CRLF + t;
    assert r[1..] == line + CRLF + t;
    FindCrlfAfterLine(line, t);
  }

  lemma ReadNumberHeader(frames: seq<Frame>, b: byte, n: int, t: bytes)
    requires !TypeOf(b).Unknown? && -LLONG_MAX <= n <= LLONG_MAX
    ensures var r := Number(n) + CRLF + t;
            var k := FindCrlf(r);
            && ReadOne(ParseState(frames, Unknown), [b] + Number(n) + CRLF + t) ==
               ReadOne(ParseState(frames, TypeOf(b)), r)
            && k >= 0 && LongLongOf(r[..k]) == Some(n) && r[k + 2..] == t
  {
    NumberIsOneLine(n);
    ReadLongLongInvertsNumber(n);
    ReadHeader(frames, b, Number(n), t);
  }

  lemma BulkBody(st: ParseState, r: bytes, s: bytes, end: bytes, t: bytes)
    requires FindCrlf(r) >= 0 && LongLongOf(r[..FindCrlf(r)]) == Some(|s|) && |end| == 2
    requires r[FindCrlf(r) + 2..] == s + end + t
    ensures BulkStep(st, r) == Finish(st.frames, Bulk(s), t)
  {
    hide LongLongOf, Complete;
    var k := FindCrlf(r);
    var body := r[k + 2..];
    assert |r| == k + 2 + |body|;
    assert r[k + 2..k + 2 + |s|] == body[..|s|] == s;
    assert r[k + 2 + |s| + 2..] == body[|s| + 2..] == t;
  }

  lemma ReadBulk(frames: seq<Frame>, s: bytes, t: bytes)
    requires |s| <= LLONG_MAX
    ensures ReadOne(ParseState(frames, Unknown), Encode(Bulk(s)) + t) == Resume(frames, Bulk(s), t)
  {
    var body := s + CRLF + t;
    assert Encode(Bulk(s)) + t == [DOLLAR] + Number(|s|) + CRLF + body;
    ReadNumberHeader(frames, DOLLAR, |s|, body);
    BulkBody(ParseState(frames, TString), Number(|s|) + CRLF + body, s, CRLF, t);
  }

  lemma ReadLine(frames: seq<Frame>, v: Reply, t: bytes)
    requires v.Status? || v.Error?
    requires OneLine(v.text)
    ensures ReadOne(ParseState(frames, Unknown), Encode(v) + t) == Resume(frames, v, t)
  {
    hide FindCrlf, Complete, LongLongOf;
    var b := if v.Status? then PLUS else MINUS;
    assert Encode(v) + t == [b] + v.text + CRLF + t;
    ReadHeader(frames, b, v.text, t);
  }

  lemma ReadInteger(frames: seq<Frame>, i: int, t: bytes)
    requires -LLONG_MAX <= i <= LLONG_MAX
    ensures ReadOne(ParseState(frames, Unknown), Encode(Integer(i)) + t) == Resume(frames, Integer(i), t)
  {
    hide Digits, Number, LongLongOf, FindCrlf, Complete;
    assert Encode(Integer(i)) + t == [COLON] + Number(i) + CRLF + t;
    ReadNumberHeader(frames, COLON, i, t);
  }

  lemma ReadNil(frames: seq<Frame>, t: bytes)
    ensures ReadOne(ParseState(frames, Unknown), Encode(Nil) + t) == Resume(frames, Nil, t)
  {
    hide Digits, LongLongOf;
    assert Encode(Nil) + t == [DOLLAR] + Number(-1) + CRLF + t;
    ReadNumberHeader(frames, DOLLAR, -1, t);
  }

  lemma ReadArrayHeader(frames: seq<Frame>, n: int, t: bytes)
    requires |frames| < MAX_DEPTH && INT_MIN <= n <= INT_MAX && n != -1
    ensures ReadOne(ParseState(frames, Unknown), [STAR] + Number(n) + CRLF + t)
         == if n > 0 then ReadOne(ParseState(frames + [Frame(n, [])], Unknown), t)
            else Resume(frames, Array(n, []), t)
  {
    hide Digits, Number, LongLongOf, FindCrlf, Complete;
    ReadNumberHeader(frames, STAR, n, t);
  }

  lemma {:induction false} ReadEncoded(frames: seq<Frame>, v: Reply, t: bytes)
    requires |frames| <= MAX_DEPTH && Readable(v, |frames|)
    ensures ReadOne(ParseState(frames, Unknown), Encode(v) + t) == Resume(frames, v, t)
    decreases v, 0
  {
    match v
    case Bulk(s) => ReadBulk(frames, s, t);
    case Integer(i) => ReadInteger(frames, i, t);
    case Nil => ReadNil(frames, t);
    case Array(n, items) =>
      assert Encode(v) + t == [STAR] + Number(n) + CRLF + (EncodeAll(items) + t);
      ReadArrayHeader(frames, n, EncodeAll(items) + t);
      if n > 0 {
        ReadEncodedItems(frames, n, [], items, t);
        assert [] + items == items;
      } else {
        assert items == [] && EncodeAll(items) + t == t;
      }
    case _ => ReadLine(frames, v, t);
  }

  lemma CompleteInOpenArray(frames: seq<Frame>, n: nat, done: seq<Reply>, v: Reply)
    ensures Complete(frames + [Frame(n, done)], v)
         == if |done| + 1 == n then Complete(frames, Array(n, done + [v]))
            else (frames + [Frame(n, done + [v])], None)
  {
    var open := frames + [Frame(n, done)];
    assert open[..|open| - 1] == frames;
  }

  /** The first of the items that an open array still misses. */
  lemma ReadFirstItem(frames: seq<Frame>, n: nat, done: seq<Reply>, v: Reply, t: bytes)
    requires Resume(frames + [Frame(n, done)], v, t) ==
             ReadOne(ParseState(frames + [Frame(n, done)], Unknown), Encode(v) + t)
    ensures ReadOne(ParseState(frames + [Frame(n, done)], Unknown), Encode(v) + t)
         == if |done| + 1 == n then Resume(frames, Array(n, done + [v]), t)
            else ReadOne(ParseState(frames + [Frame(n, done + [v])], Unknown), t)
  {
    CompleteInOpenArray(frames, n, done, v);
  }

  lemma EncodeAllHead(vs: seq<Reply>, t: bytes)
    requires vs != []
    ensures EncodeAll(vs) + t == Encode(vs[0]) + (EncodeAll(vs[1..]) + t)
    ensures vs[1..] == [] ==> EncodeAll(vs) + t == Encode(vs[0]) + t
  {
    hide Encode;
    var first, others := Encode(vs[0]), EncodeAll(vs[1..]);
    assert first + others + t == first + (others + t);
  }

  lemma {:induction false} ReadEncodedItems(frames: seq<Frame>, n: nat, done: seq<Reply>, todo: seq<Reply>, t: bytes)
    requires |frames| < MAX_DEPTH && todo != [] && |done| + |todo| == n
    requires forall i :: 0 <= i < |todo| ==> Readable(todo[i], |frames| + 1)
    ensures ReadOne(ParseState(frames + [Frame(n, done)], Unknown), EncodeAll(todo) + t)
         == Resume(frames, Array(n, done + todo), t)
    decreases todo, 1
  {
    hide *;
    var v, todo' := todo[0], todo[1..];
    EncodeAllHead(todo, t);
    if todo' == [] {
      ReadEncoded(frames + [Frame(n, done)], v, t);
      ReadFirstItem(frames, n, done, v, t);
      assert done + [v] == done + todo;
    } else {
      var t' := EncodeAll(todo') + t;
      ReadEncoded(frames + [Frame(n, done)], v, t');
      ReadFirstItem(frames, n, done, v, t');
      assert done + [v] + todo' == done + todo;
      ReadEncodedItems(frames, n, done + [v], todo', t);
    }
  }

  /** Reading inverts encoding, before any suffix, exactly for the readable replies. */
  lemma RoundTrip(v: Reply, t: bytes)
    ensures ReadOne(START, Encode(v) + t) == Emitted(v, t) <==> Readable(v, 0)
  {
    ReadOneKeepsGood(START, Encode(v) + t);
    if Readable(v, 0) {
      ReadEncoded([], v, t);
    }
  }

  /** A stream of encoded replies is read back reply by reply, with nothing left. */
  lemma {:induction false} StreamRoundTrip(vs: seq<Reply>)
    requires forall i :: 0 <= i < |vs| ==> Readable(vs[i], 0)
    ensures ReadAll(START, EncodeAll(vs)) == Session(vs, Waiting(START, []))
  {
    if vs != [] {
      RoundTrip(vs[0], EncodeAll(vs[1..]));
      StreamRoundTrip(vs[1..]);
      assert [vs[0]] + vs[1..] == vs;
    }
  }

  // ------------------------------------------- inputs that no encoding reaches

  /**
   A header with any line at all, not only the digits that encoding writes (what a line means is told by
   ReadLongLongOfDigits and ReadLongLongOfJunk).
   */
  lemma ReadAnyNumber(frames: seq<Frame>, line: bytes, t: bytes)
    requires OneLine(line)
    ensures var n, o := LongLongOf(line), ReadOne(ParseState(frames, Unknown), [COLON] + line + CRLF + t);
            o == if n == None then Unspecified else Resume(frames, Integer(n.value), t)
  {
    hide LongLongOf, FindCrlf, Complete;
    ReadHeader(frames, COLON, line, t);
  }

  /** A string of any negative length reads as nil. */
  lemma ReadAnyLength(frames: seq<Frame>, line: bytes, t: bytes)
    requires OneLine(line)
    ensures var n, o := LongLongOf(line), ReadOne(ParseState(frames, Unknown), [DOLLAR] + line + CRLF + t);
            && (n == None ==> o == Unspecified)
            && (n.Some? && n.value < 0 ==> o == Resume(frames, Nil, t))
  {
    hide LongLongOf, FindCrlf, Complete;
    ReadHeader(frames, DOLLAR, line, t);
  }

  /** An array of length -1 reads as nil; a length that is no int is undefined. */
  lemma ReadAnyCount(frames: seq<Frame>, line: bytes, t: bytes)
    requires OneLine(line) && |frames| < MAX_DEPTH
    ensures var n, o := LongLongOf(line), ReadOne(ParseState(frames, Unknown), [STAR] + line + CRLF + t);
            && (n == None || n.value > INT_MAX || n.value < INT_MIN ==> o == Unspecified)
            && (n == Some(-1) ==> o == Resume(frames, Nil, t))
  {
    hide LongLongOf, FindCrlf, Complete;
    ReadHeader(frames, STAR, line, t);
  }

  lemma ReadNilArray(frames: seq<Frame>, t: bytes)
    requires |frames| < MAX_DEPTH
    ensures ReadOne(ParseState(frames, Unknown), [STAR] + Number(-1) + CRLF + t) == Resume(frames, Nil, t)
  {
    hide Digits, Number, LongLongOf, FindCrlf, Complete;
    NumberIsOneLine(-1);
    ReadLongLongInvertsNumber(-1);
    ReadAnyCount(frames, Number(-1), t);
  }

  /** A string of as many bytes as its line says, however that is written and whichever two bytes follow it. */
  lemma ReadAnyBulk(frames: seq<Frame>, line: bytes, s: bytes, end: bytes, t: bytes)
    requires OneLine(line) && LongLongOf(line) == Some(|s|) && |end| == 2
    ensures ReadOne(ParseState(frames, Unknown), [DOLLAR] + line + CRLF + (s + end + t)) == Resume(frames, Bulk(s), t)
  {
    hide LongLongOf, Complete, FindCrlf;
    var body := s + end + t;
    ReadHeader(frames, DOLLAR, line, body);
    BulkBody(ParseState(frames, TString), line + CRLF + body, s, end, t);
  }

  /** A byte that is none of the five types ends the reading with an error that names it. */
  lemma ReadBadType(frames: seq<Frame>, b: byte, t: bytes)
    requires b !in [MINUS, PLUS, COLON, DOLLAR, STAR]
    ensures ReadOne(ParseState(frames, Unknown), [b] + t) == Broken(BadTypeByte(b))
  {
    hide FindCrlf, LongLongOf, Complete;
  }

  /** A reply that has not come in whole is waited for, wherever it is cut off. */
  lemma PartOfReplyWaits(v: Reply, n: nat)
    requires Readable(v, 0) && n < |Encode(v)|
    ensures ReadOne(START, Encode(v)[..n]).Waiting?
  {
    var r, t := Encode(v)[..n], Encode(v)[n..];
    assert r + t == Encode(v) == Encode(v) + [];
    RoundTrip(v, []);
    ReadOneExtends(START, r, t);
  }

  // --------------------------------------------------------------- depth limit

  /** n array headers of one element, one inside the other. */
  function Nested(n: nat): bytes {
    if n == 0 then [] else [STAR] + Number(1) + CRLF + Nested(n - 1)
  }

  lemma NestedHead(n: nat, t: bytes)
    ensures n == 0 ==> Nested(n) + t == t
    ensures n > 0 ==> Nested(n) + t == [STAR] + Number(1) + CRLF + (Nested(n - 1) + t)
  {
    hide Number;
  }

  lemma RefuseAtDepth(frames: seq<Frame>, t: bytes)
    requires |frames| == MAX_DEPTH
    ensures ReadOne(ParseState(frames, Unknown), [STAR] + t) == Broken(TooDeep)
  {
    hide FindCrlf, LongLongOf, Complete;
  }

  /** The ninth array is refused as soon as its type byte is seen. */
  lemma {:induction false} NinthArrayRefused(frames: seq<Frame>, n: nat, t: bytes)
    requires |frames| + n == 8
    ensures ReadOne(ParseState(frames, Unknown), Nested(n) + ([STAR] + t)) == Broken(TooDeep)
    decreases n
  {
    hide Nested, Number, ReadOne;
    NestedHead(n, [STAR] + t);
    if n == 0 {
      RefuseAtDepth(frames, t);
    } else {
      ReadArrayHeader(frames, 1, Nested(n - 1) + ([STAR] + t));
      NinthArrayRefused(frames + [Frame(1, [])], n - 1, t);
    }
  }
}
