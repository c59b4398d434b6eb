/** The reading loops of hiredis clients: feed what arrived, then take replies until there is none or an error. */
module ReplyLoop {
  import opened Bytes
  import opened Resp
  import opened ReplyHeap
  import opened SdsString
  import opened Reader

  /** The replies at these addresses are the trees vs, all of them complete and out of the reader's hands. */
  ghost predicate Delivered(heap: Heap, base: nat, addresses: seq<int>, vs: seq<Reply>) {
    && base <= |heap| && |addresses| == |vs|
    && forall i :: 0 <= i < |vs| ==> Denotes(heap[..base], addresses[i], vs[i])
  }

  lemma DeliveredSurvives(heap: Heap, base: nat, heap': Heap, base': nat, addresses: seq<int>, vs: seq<Reply>)
    requires Delivered(heap, base, addresses, vs)
    requires base <= base' <= |heap'| && heap'[..base] == heap[..base]
    ensures Delivered(heap', base', addresses, vs)
  {
    hide Image;
    assert heap'[..base'][..base] == heap[..base];
    forall i | 0 <= i < |vs| ensures Denotes(heap'[..base'], addresses[i], vs[i]) {
      DenotesSurvives(heap[..base], heap'[..base'], addresses[i], vs[i]);
    }
  }

  lemma NothingDelivered(heap: Heap, base: nat)
    requires base <= |heap|
    ensures Delivered(heap, base, [], [])
  {
  }

  lemma DeliveredAppend(heap: Heap, base: nat, a: seq<int>, vs: seq<Reply>, b: seq<int>, ws: seq<Reply>)
    requires Delivered(heap, base, a, vs) && Delivered(heap, base, b, ws)
    ensures Delivered(heap, base, a + b, vs + ws)
  {
    hide Image;
  }

  lemma DeliveredMore(heap: Heap, addresses: seq<int>, vs: seq<Reply>, a: int, v: Reply)
    requires Delivered(heap, |heap|, addresses, vs) && Denotes(heap, a, v)
    ensures Delivered(heap, |heap|, addresses + [a], vs + [v])
  {
    hide Image;
    assert heap[..|heap|] == heap;
  }

  /** A client sees the trees themselves. */
  lemma DeliveredTrees(heap: Heap, base: nat, addresses: seq<int>, vs: seq<Reply>, i: nat)
    requires Delivered(heap, base, addresses, vs) && i < |vs|
    ensures TreeAt(heap, addresses[i]) == vs[i]
  {
    hide Image, TreeAt;
    assert heap[..base] <= heap;
    DenotesSurvives(heap[..base], heap, addresses[i], vs[i]);
    DenotesTree(heap, addresses[i], vs[i]);
  }

  /** How the end of a session shows in the reader. */
  ghost predicate EndsAs(r: RedisReader, end: Outcome)
    requires r.Valid()
    reads r, r.buf, if r.buf == null then {} else {r.buf.buf}
  {
    match end
    case Waiting(st, rest) => r.err.None? && r.State() == st && r.Unread() == rest
    case Broken(e) => r.err == Some(e)
    case _ => false
  }

  /** The whole session is the replies got so far and the rest. */
  ghost predicate Remains(all: Session, got: seq<Reply>, rest: Session) {
    all == Session(got + rest.replies, rest.end)
  }

  lemma AllRemains(all: Session)
    ensures Remains(all, [], all)
  {
  }

  /** One call of the reader, as the session sees it. */
  lemma OneLess(all: Session, got: seq<Reply>, st: ParseState, r: bytes)
    requires Remains(all, got, ReadAll(st, r))
    ensures var o := ReadOne(st, r);
            if o.Emitted? then Remains(all, got + [o.reply], ReadAll(START, o.rest)) else all == Session(got, o)
  {
    hide ReadAll, ReadOne;
    ReadAllStep(st, r);
    var o := ReadOne(st, r);
    if o.Emitted? {
      assert got + ([o.reply] + ReadAll(START, o.rest).replies) == got + [o.reply] + ReadAll(START, o.rest).replies;
    }
  }

  /** All the replies that the bytes received so far give. */
  method Drain(r: RedisReader) returns (replies: seq<int>)
    requires r.Valid() && r.err.None? && !ReadAll(r.State(), r.Unread()).end.Unspecified?
    modifies r.Repr()
    ensures r.Valid() && fresh(r.Repr() - old(r.Repr()))
    ensures var s := old(ReadAll(r.State(), r.Unread()));
            Delivered(r.heap, r.base, replies, s.replies) && EndsAs(r, s.end)
    ensures old(r.base) <= r.base <= |r.heap| && r.heap[..old(r.base)] == old(r.heap[..r.base])
    ensures r.len <= old(r.len)
  {
    hide OpenImage, Image, ReadOne, ReadAll, RedisReader.Valid, RedisReader.BufferOk, Delivered, DoStep, Remains;
    ghost var all := ReadAll(r.State(), r.Unread());
    ghost var got: seq<Reply> := [];
    replies := [];
    NothingDelivered(r.heap, r.base);
    AllRemains(all);
    while true
      invariant r.Valid() && r.err.None? && fresh(r.Repr() - old(r.Repr()))
      invariant old(r.base) <= r.base <= |r.heap| && r.heap[..old(r.base)] == old(r.heap[..r.base])
      invariant Delivered(r.heap, r.base, replies, got)
      invariant Remains(all, got, ReadAll(r.State(), r.Unread()))
      invariant r.len <= old(r.len)
      decreases |r.Unread()|
    {
      ghost var heap, base, now := r.heap, r.base, ReadOne(r.State(), r.Unread());
      OneLess(all, got, r.State(), r.Unread());
      var ok, reply := r.GetReply();
      DeliveredSurvives(heap, base, r.heap, r.base, replies, got);
      if !ok || reply == NULL {
        return;
      }
      DeliveredMore(r.heap, replies, got, reply, now.reply);
      got := got + [now.reply];
      replies := replies + [reply];
    }
  }

  /** After the first i chunks: where the session stands, and what the next chunk does to it. */
  lemma NextChunk(chunks: seq<bytes>, i: nat)
    requires i < |chunks| && !ReadAll(START, Flatten(chunks)).end.Unspecified?
    ensures var s := ReadAll(START, Flatten(chunks[..i]));
            && ReadAll(START, Flatten(chunks[..i + 1])) == FeedChunk(s, chunks[i])
            && !s.end.Unspecified? && !FeedChunk(s, chunks[i]).end.Unspecified?
  {
    hide ReadAll, Flatten;
    var r := Flatten(chunks[..i]);
    assert chunks[..i + 1] == chunks[..i] + [chunks[i]];
    FlattenSnoc(chunks[..i], chunks[i]);
    ReadAllExtends(START, r, chunks[i]);
    var later := Flatten(chunks[i + 1..]);
    assert chunks == chunks[..i + 1] + chunks[i + 1..];
    FlattenAppend(chunks[..i + 1], chunks[i + 1..]);
    ReadAllExtends(START, r + chunks[i], later);
  }

  /**
   What the buffer has room for: the bytes that wait for the rest of their reply, those that have been read but not
   yet dropped, and the next chunk. The whole stream may be of any length.
   */
  ghost predicate ChunkFits(chunks: seq<bytes>, i: nat)
    requires i < |chunks|
  {
    var s := ReadAll(START, Flatten(chunks[..i]));
    s.end.Waiting? ==> |s.end.rest| + MAX_READ_PART + |chunks[i]| + SDS_MAX_PREALLOC <= INT_MAX
  }

  /** One chunk: feed it and take what it completes. */
  method FeedAndDrain(r: RedisReader, chunk: bytes) returns (replies: seq<int>)
    requires r.Valid() && r.err.None? && r.len + |chunk| + SDS_MAX_PREALLOC <= INT_MAX
    requires !ReadAll(r.State(), r.Unread() + chunk).end.Unspecified?
    modifies r.Repr()
    ensures r.Valid() && fresh(r.Repr() - old(r.Repr()))
    ensures var s := old(ReadAll(r.State(), r.Unread() + chunk));
            Delivered(r.heap, r.base, replies, s.replies) && EndsAs(r, s.end)
    ensures old(r.base) <= r.base <= |r.heap| && r.heap[..old(r.base)] == old(r.heap[..r.base])
    ensures r.len <= old(r.len) + |chunk|
  {
    hide OpenImage, Image, ReadAll, RedisReader.Valid, RedisReader.BufferOk, Delivered;
    var ok := r.Feed(chunk);
    replies := Drain(r);
  }

  /**
   A whole connection. However the stream has been cut, the client gets the replies of the stream read in one
   piece, and the reader ends in the same state: waiting at the same place, or with the same error.
   */
  method ReadStream(chunks: seq<bytes>) returns (r: RedisReader, replies: seq<int>)
    requires forall i :: 0 <= i < |chunks| ==> ChunkFits(chunks, i)
    requires !ReadAll(START, Flatten(chunks)).end.Unspecified?
    ensures r.Valid() && fresh(r.Repr())
    ensures var s := ReadAll(START, Flatten(chunks));
            Delivered(r.heap, r.base, replies, s.replies) && EndsAs(r, s.end)
  {
    hide OpenImage, Image, ReadAll, RedisReader.Valid, RedisReader.BufferOk, Delivered, Flatten;
    r := new RedisReader();
    replies := [];
    NothingDelivered(r.heap, r.base);
    NothingRead();
    assert chunks[..0] == [];
    for i := 0 to |chunks|
      invariant r.Valid() && fresh(r.Repr())
      invariant var s := ReadAll(START, Flatten(chunks[..i]));
                Delivered(r.heap, r.base, replies, s.replies) && EndsAs(r, s.end)
    {
      ghost var s := ReadAll(START, Flatten(chunks[..i]));
      NextChunk(chunks, i);
      if r.err.None? {
        assert ChunkFits(chunks, i);
        UnreadLength(r);
        ghost var heap, base := r.heap, r.base;
        var more := FeedAndDrain(r, chunks[i]);
        DeliveredSurvives(heap, base, r.heap, r.base, replies, s.replies);
        DeliveredAppend(r.heap, r.base, replies, s.replies, more, ReadAll(s.end.st, s.end.rest + chunks[i]).replies);
        replies := replies + more;
      } else {
        var ok := r.Feed(chunks[i]);
      }
    }
    assert chunks[..|chunks|] == chunks;
  }

  lemma UnreadLength(r: RedisReader)
    requires r.Valid() && r.err.None?
    ensures r.len < |r.Unread()| + MAX_READ_PART
  {
  }

  lemma NothingRead()
    ensures ReadAll(START, Flatten([])) == Session([], Waiting(START, []))
  {
  }
}
