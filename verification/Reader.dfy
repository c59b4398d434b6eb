/**
 The reply reader (read.c): a buffer with a cursor, nine task slots, and replies built in place in memory.
 It is proved to do what Resp.ReadOne says, wherever the incoming bytes happen to be cut.
 */
module Reader {
  import opened Bytes
  import opened Resp
  import opened ReplyHeap
  import opened SdsString
  import Scan

  const REDIS_READER_MAX_BUF: int := 1024 * 16

  /** A part of the buffer that has been read is dropped once it is this long. */
  const MAX_READ_PART: int := 1024

  /** redisReadTask; `parent` is the index of the parent's task slot, `obj` an address, both NULL if absent. */
  datatype Task = Task(ty: ItemType, elements: int, idx: int, obj: int, parent: int)

  const NO_TASK := Task(Unknown, -1, -1, NULL, NULL)

  // ------------------------------------------------------------ the task stack

  /** The slots below the top describe the open arrays; each task knows its place in its parent. */
  ghost predicate StackMatches(rstack: seq<Task>, frames: seq<Frame>, base: nat) {
    && |rstack| == 9 && |frames| <= 8 && Unfilled(frames)
    && rstack[0].parent == NULL
    && forall k :: 0 <= k < |frames| ==> SlotMatches(rstack, frames, base, k)
  }

  ghost predicate SlotMatches(rstack: seq<Task>, frames: seq<Frame>, base: nat, k: nat)
    requires |rstack| == 9 && k < |frames| <= 8 && Unfilled(frames)
  {
    && rstack[k].ty == TArray
    && rstack[k].elements == frames[k].elements
    && rstack[k].obj == AddressOf(frames, base, k)
    && rstack[k + 1].parent == k
    && rstack[k + 1].idx == |frames[k].done|
  }

  lemma StackPop(rstack: seq<Task>, frames: seq<Frame>, base: nat)
    requires StackMatches(rstack, frames, base) && frames != []
    ensures StackMatches(rstack, frames[..|frames| - 1], base)
  {
    hide OpenImage;
    var outer := frames[..|frames| - 1];
    forall k | 0 <= k < |outer| ensures SlotMatches(rstack, outer, base, k) {
      assert SlotMatches(rstack, frames, base, k);
      assert outer[..k] == frames[..k];
    }
  }

  /** The top task moves on to the next slot of its parent. */
  lemma StackAdvance(rstack: seq<Task>, frames: seq<Frame>, base: nat, v: Reply, top: Task)
    requires StackMatches(rstack, frames, base) && frames != []
    requires |frames[|frames| - 1].done| + 1 < frames[|frames| - 1].elements
    requires top.idx == |frames[|frames| - 1].done| + 1 && top.parent == |frames| - 1
    ensures var k := |frames| - 1;
            StackMatches(rstack[k + 1 := top], frames[..k] + [frames[k].(done := frames[k].done + [v])], base)
  {
    hide OpenImage;
    var n := |frames| - 1;
    var f := frames[n];
    var frames', rstack' := frames[..n] + [f.(done := f.done + [v])], rstack[n + 1 := top];
    forall k | 0 <= k < |frames'| ensures SlotMatches(rstack', frames', base, k) {
      assert SlotMatches(rstack, frames, base, k);
      assert frames'[..k] == frames[..k];
    }
  }

  /** A new array opens: the top slot becomes its task and the next slot that of its first item. */
  lemma StackPush(rstack: seq<Task>, frames: seq<Frame>, base: nat, n: nat, a: int, top: Task)
    requires StackMatches(rstack, frames, base) && |frames| < 8 && n > 0
    requires rstack[|frames|].ty == TArray && a == AddressOf(frames, base, |frames|)
    requires top.idx == 0 && top.parent == |frames|
    ensures var k := |frames|;
            StackMatches(rstack[k := rstack[k].(elements := n, obj := a)][k + 1 := top], frames + [Frame(n, [])], base)
  {
    hide OpenImage;
    var m := |frames|;
    var frames' := frames + [Frame(n, [])];
    var rstack' := rstack[m := rstack[m].(elements := n, obj := a)][m + 1 := top];
    forall k | 0 <= k < |frames'| ensures SlotMatches(rstack', frames', base, k) {
      if k < m {
        assert SlotMatches(rstack, frames, base, k);
      }
      assert frames'[..k] == frames[..k];
    }
  }

  /** What a new object does to memory: the parent's empty slot receives its address. */
  lemma CreatedObject(rstack: seq<Task>, frames: seq<Frame>, base: nat, heap: Heap, o: Object)
    requires StackMatches(rstack, frames, base) && base <= |heap| && heap[base..] == OpenImage(frames, base, false)
    ensures |heap| == AddressOf(frames, base, |frames|)
    ensures frames == [] ==> heap + [o] == heap[..base] + OpenImage(frames, base, true) + [o]
    ensures frames == [] <==> rstack[|frames|].parent == NULL
    ensures frames != [] ==>
              var k := |frames|;
              var p := rstack[k - 1].obj;
              && rstack[k].parent == k - 1 && base <= p < |heap| && heap[p].ArrayObject?
              && 0 <= rstack[k].idx < |heap[p].element| && heap[p].element[rstack[k].idx] == NULL
              && (heap + [o])[p := heap[p].(element := heap[p].element[rstack[k].idx := |heap|])]
                 == heap[..base] + OpenImage(frames, base, true) + [o]
  {
    hide OpenImage;
    assert frames[..|frames|] == frames;
    ChildDoesNotMove(frames, base);
    if frames != [] {
      var k := |frames| - 1;
      assert SlotMatches(rstack, frames, base, k);
      StoreInParent(frames, base);
      var p := rstack[k].obj;
      var h := heap[base..];
      assert heap[p] == h[p - base];
      var w := h[p - base].(element := h[p - base].element[|frames[k].done| := base + |h|]);
      assert (heap + [o])[p := w] == heap[..base] + h[p - base := w] + [o];
    } else {
      NoFrames(base, Nil);
    }
  }

  lemma NoFrames(base: nat, v: Reply)
    ensures OpenImage([], base, true) == OpenImage([], base, false) == []
    ensures [] + Image(v, AddressOf([], base, 0)) == Image(v, base)
    ensures Complete([], v) == ([], Some(v))
  {
    hide Image;
  }

  /** The stored item v either fills its array or takes the next slot of it. */
  lemma NextTask(rstack: seq<Task>, frames: seq<Frame>, base: nat, heap: Heap, v: Reply)
    requires StackMatches(rstack, frames, base) && base <= |heap| && frames != []
    requires heap[base..] == OpenImage(frames, base, true) + Image(v, AddressOf(frames, base, |frames|))
    ensures var k := |frames| - 1;
            var f := frames[k];
            var outer, v' := frames[..k], Array(f.elements, f.done + [v]);
            var next := outer + [f.(done := f.done + [v])];
            if |f.done| == f.elements - 1 then
              && StackMatches(rstack, outer, base)
              && Complete(outer, v') == Complete(frames, v)
              && heap[base..] == OpenImage(outer, base, true) + Image(v', AddressOf(outer, base, |outer|))
            else
              && StackMatches(rstack[k + 1 := rstack[k + 1].(ty := Unknown, elements := -1, idx := |f.done| + 1)],
                              next, base)
              && Complete(frames, v) == (next, None)
              && heap[base..] == OpenImage(next, base, false)
  {
    hide OpenImage, Image;
    var k := |frames| - 1;
    var f := frames[k];
    var outer := frames[..k];
    assert SlotMatches(rstack, frames, base, k);
    assert frames == outer + [f] && frames[..|frames|] == frames && outer[..|outer|] == outer;
    CompleteInOpenArray(outer, f.elements, f.done, v);
    if |f.done| == f.elements - 1 {
      CloseArray(outer, base, f, v);
      StackPop(rstack, frames, base);
    } else {
      StoreItem(outer, base, f, v);
      StackAdvance(rstack, frames, base, v, rstack[k + 1].(ty := Unknown, elements := -1, idx := |f.done| + 1));
    }
  }

  lemma FreshStack(rstack: seq<Task>, base: nat)
    requires |rstack| == 9
    ensures StackMatches(rstack[0 := NO_TASK], [], base)
    ensures OpenImage([], base, false) == []
  {
  }

  /** Without a byte to read every state waits, except that a ninth array is refused at once. */
  lemma NothingToRead(st: ParseState)
    requires |st.frames| < MAX_DEPTH || !st.cur.TArray?
    ensures ReadOne(st, []) == Waiting(st, [])
  {
  }

  lemma RetypeTop(rstack: seq<Task>, frames: seq<Frame>, base: nat, ty: ItemType)
    requires StackMatches(rstack, frames, base)
    ensures var k := |frames|;
            StackMatches(rstack[k := rstack[k].(ty := ty)], frames, base)
  {
    hide OpenImage;
    var rstack' := rstack[|frames| := rstack[|frames|].(ty := ty)];
    forall k | 0 <= k < |frames| ensures SlotMatches(rstack', frames, base, k) {
      assert SlotMatches(rstack, frames, base, k);
    }
  }

  // ---------------------------------------------------------------- the reader

  lemma TailOfBoth(a: bytes, b: bytes, i: nat)
    requires i <= |a|
    ensures (a + b)[i..] == a[i..] + b
  {
  }

  lemma Window(a: array<byte>, p: nat, end: nat, i: nat, j: nat)
    requires p <= end <= a.Length && i <= j <= end - p
    ensures a[p..end][i..j] == a[p + i..p + j] && a[p..end][..j] == a[p..p + j] && a[p..end][i..] == a[p + i..end]
  {
    var w := a[p..end];
    assert forall k :: 0 <= k < |w| ==> w[k] == a[p + k];
    assert w[i..j] == a[p + i..p + j];
    assert w[..j] == a[p..p + j];
    assert w[i..] == a[p + i..end];
  }

  class RedisReader {
    var err: Option<ReaderError>
    var buf: Sds?
    var pos: int
    var len: int
    var maxbuf: int
    var rstack: seq<Task>
    var ridx: int
    var reply: int
    var heap: Heap
    ghost var frames: seq<Frame>  // the arrays under construction
    ghost var base: nat           // where the reply under construction starts in memory

    ghost function Repr(): set<object>
      reads this, buf
    {
      {this} + if buf == null then {} else {buf as object, buf.buf}
    }

    ghost predicate BufferOk()
      reads this, buf, if buf == null then {} else {buf.buf}
    {
      buf != null && buf.Valid() && len == buf.len && 0 <= pos <= len
    }

    ghost predicate StackOk()
      reads this
    {
      ridx == |frames| && StackMatches(rstack, frames, base) && base <= |heap| && !rstack[ridx].ty.TNil?
    }

    /** The open arrays are in memory and the next item has not been stored yet. */
    ghost predicate Laid()
      reads this
    {
      StackOk() && heap[base..] == OpenImage(frames, base, false)
    }

    /** The finished root is in memory and no task is left. */
    ghost predicate LaidRoot(v: Reply)
      reads this
    {
      ridx == -1 && frames == [] && |rstack| == 9 && base <= |heap| && heap[base..] == Image(v, base)
    }

    /** Reading an item. The reply under construction is known once its root array exists. */
    ghost predicate Reading()
      reads this
    {
      Laid() && reply == (if ridx == 0 then NULL else base)
    }

    /** The finished reply v waits to be handed out. */
    ghost predicate Finished(v: Reply)
      reads this
    {
      LaidRoot(v) && reply == base
    }

    ghost predicate Idle()
      reads this
    {
      ridx == -1 && frames == [] && |rstack| == 9 && base == |heap| && reply == NULL
    }

    /** An error clears the buffer and the stack. */
    ghost predicate Dead()
      reads this
    {
      err.Some? && buf == null && pos == len == 0 && ridx == -1 && |rstack| == 9 && frames == []
      && reply == NULL && base <= |heap|
    }

    /** Between two calls. The part of the buffer that has been read stays short, however long the stream. */
    ghost predicate Valid()
      reads this, buf, if buf == null then {} else {buf.buf}
      ensures Valid() ==> |rstack| == 9 && -1 <= ridx <= 8 && base <= |heap|
      ensures Valid() && err.None? ==> BufferOk() && pos < MAX_READ_PART
    {
      if err.Some? then Dead()
      else BufferOk() && pos < MAX_READ_PART && (Idle() || (Reading() && !(ridx == 8 && rstack[8].ty == TArray)))
    }

    ghost function State(): ParseState
      requires |rstack| == 9 && -1 <= ridx <= 8
      reads this
    {
      if ridx < 0 then START else ParseState(frames, rstack[ridx].ty)
    }

    ghost function Unread(): bytes
      requires BufferOk()
      reads this, buf, if buf == null then {} else {buf.buf}
    {
      buf.Contents()[pos..]
    }

    /** redisReaderCreateWithFunctions. */
    constructor ()
      ensures Valid() && fresh(Repr())
      ensures err.None? && heap == [] && len == 0 && State() == START && Unread() == []
    {
      err, pos, len, maxbuf := None, 0, 0, REDIS_READER_MAX_BUF;
      buf := new Sds([]);
      rstack, ridx := seq(9, _ => NO_TASK), -1;
      reply, heap, frames, base := NULL, [], [], 0;
    }

    /** __redisReaderSetError. */
    method SetError(e: ReaderError)
      requires err.None? && base <= |heap| && |rstack| == 9
      modifies this
      ensures Dead() && err == Some(e)
      ensures heap == old(heap) && base == old(base)
    {
      reply := NULL;
      buf := null;
      pos, len := 0, 0;
      ridx := -1;
      frames := [];
      err := Some(e);
    }

    /** readLine: the offset of the line at the cursor and its length, or -1 if it is not complete. */
    method ReadLine() returns (p: int, n: int)
      requires BufferOk()
      modifies this`pos
      ensures BufferOk() && n == FindCrlf(old(Unread()))
      ensures if n < 0 then p == -1 && pos == old(pos)
              else p == old(pos) && pos == old(pos) + n + 2 && Unread() == old(Unread())[n + 2..]
      ensures n >= 0 ==> buf.buf[p + n] == CR && buf.buf[p..p + n] == old(Unread())[..n]
    {
      assert buf.buf[pos..pos + (len - pos)] == Unread();
      n := Scan.SeekNewline(buf.buf, pos, len - pos);
      if n < 0 {
        p := -1;
      } else {
        p := pos;
        Window(buf.buf, p, len, 0, n);
        Window(buf.buf, p, len, n + 2, len - p);
        pos := pos + n + 2;
      }
    }

    /** createStringObject and its kin: a new object, its address stored in the parent's slot. */
    method CreateObject(o: Object) returns (a: int)
      requires Laid()
      modifies this`heap
      ensures a == |old(heap)| == AddressOf(frames, base, |frames|)
      ensures heap == old(heap[..base]) + OpenImage(frames, base, true) + [o]
    {
      CreatedObject(rstack, frames, base, heap, o);
      a := |heap|;
      heap := heap + [o];
      if rstack[ridx].parent != NULL {
        var parent := rstack[rstack[ridx].parent].obj;
        heap := heap[parent := heap[parent].(element := heap[parent].element[rstack[ridx].idx := a])];
      }
    }

    /** moveToNextTask, after the item v has been stored: closes every array that v fills. */
    method MoveToNextTask(ghost v0: Reply)
      requires StackOk()
      requires heap[base..] == OpenImage(frames, base, true) + Image(v0, AddressOf(frames, base, |frames|))
      modifies this`ridx, this`rstack, this`frames
      ensures var r := Complete(old(frames), v0);
              if r.1.Some? then LaidRoot(r.1.value)
              else Laid() && frames == r.0 && ridx >= 1 && rstack[ridx].ty == Unknown
    {
      hide OpenImage, Image, Complete;
      ghost var v := v0;
      while ridx >= 0
        invariant StackOk()
        invariant Complete(frames, v) == Complete(old(frames), v0)
        invariant heap[base..] == OpenImage(frames, base, true) + Image(v, AddressOf(frames, base, |frames|))
      {
        if ridx == 0 {
          NoFrames(base, v);
          ridx := -1;
          return;
        }
        var cur, prv := rstack[ridx], rstack[ridx - 1];
        ghost var k := |frames| - 1;
        assert SlotMatches(rstack, frames, base, k);
        assert prv.ty == TArray;
        NextTask(rstack, frames, base, heap, v);
        if cur.idx == prv.elements - 1 {
          ridx := ridx - 1;
          v := Array(frames[k].elements, frames[k].done + [v]);
          frames := frames[..k];
        } else {
          assert cur.idx < prv.elements;
          rstack := rstack[ridx := cur.(ty := Unknown, elements := -1, idx := cur.idx + 1)];
          frames := frames[..k] + [frames[k].(done := frames[k].done + [v])];
          return;
        }
      }
    }

    /** What one step of the specification means for the reader. */
    ghost predicate After(s: Step, ok: bool)
      reads this, buf, if buf == null then {} else {buf.buf}
    {
      match s
      case Blocked => !ok && err.None? && BufferOk() && Reading()
      case Failed(e) => !ok && Dead() && err == Some(e)
      case Undefined => false
      case Next(st, rest, out) =>
        && ok && err.None? && BufferOk() && Unread() == rest
        && if out.Some? then Finished(out.value) else Reading() && State() == st
    }

    /** A finished item without elements: created, kept if it is the root, and on to the next task. */
    method StoreLeaf(ghost v: Reply, o: Object)
      requires err.None? && BufferOk() && Reading()
      requires (!v.Array? || v.items == []) && o == Leaf(v)
      modifies this`heap, this`reply, this`ridx, this`rstack, this`frames
      ensures After(Finish(old(frames), v, Unread()), true)
      ensures heap[..base] == old(heap[..base])
    {
      hide OpenImage, Image, Complete, SlotMatches, Leaf, Unfilled;
      var obj := CreateObject(o);
      ImageOfLeaf(v, obj);
      assert heap[base..] == OpenImage(frames, base, true) + [o];
      if ridx == 0 {
        NoFrames(base, v);
        reply := obj;
      }
      MoveToNextTask(v);
    }

    /** processLineItem. */
    method ProcessLineItem() returns (ok: bool)
      requires err.None? && BufferOk() && Reading()
      requires rstack[ridx].ty in {TError, TStatus, TInteger}
      requires !LineStep(State(), Unread()).Undefined?
      modifies this
      ensures After(old(LineStep(State(), Unread())), ok)
      ensures !ok ==> State() == old(State()) && Unread() == old(Unread())
      ensures buf == old(buf) && len == old(len) && base == old(base) && heap[..base] == old(heap[..base])
    {
      hide OpenImage, Image, Complete, SlotMatches, Unfilled, Finish, FindCrlf, LongLongOf;
      ghost var r := Unread();
      var ty := rstack[ridx].ty;
      var p, n := ReadLine();
      if p == -1 {
        return false;
      }
      if ty == TInteger {
        var value := Scan.ReadLongLong(buf.buf, p, n);
        StoreLeaf(Integer(value), IntegerObject(value));
      } else {
        var text := buf.buf[p..p + n];
        StoreLeaf(if ty == TStatus then Status(text) else Error(text), TextObject(ty, text));
      }
      return true;
    }

    /** processBulkItem. */
    method ProcessBulkItem() returns (ok: bool)
      requires err.None? && BufferOk() && Reading()
      requires rstack[ridx].ty == TString
      requires !BulkStep(State(), Unread()).Undefined?
      modifies this
      ensures After(old(BulkStep(State(), Unread())), ok)
      ensures !ok ==> State() == old(State()) && Unread() == old(Unread())
      ensures buf == old(buf) && len == old(len) && base == old(base) && heap[..base] == old(heap[..base])
    {
      hide OpenImage, Image, Complete, SlotMatches, Unfilled, Finish, FindCrlf, LongLongOf;
      assert buf.buf[pos..pos + (len - pos)] == Unread();
      var s := Scan.SeekNewline(buf.buf, pos, len - pos);
      if s < 0 {
        return false;
      }
      ok := ProcessBulkText(s);
    }

    /** The rest of processBulkItem, once its first line of s bytes has been found. */
    method ProcessBulkText(s: nat) returns (ok: bool)
      requires err.None? && BufferOk() && Reading()
      requires rstack[ridx].ty == TString && FindCrlf(Unread()) == s
      requires !BulkStep(State(), Unread()).Undefined?
      modifies this
      ensures After(old(BulkStep(State(), Unread())), ok)
      ensures !ok ==> State() == old(State()) && Unread() == old(Unread())
      ensures buf == old(buf) && len == old(len) && base == old(base) && heap[..base] == old(heap[..base])
    {
      hide OpenImage, Image, Complete, SlotMatches, Unfilled, Finish, FindCrlf, LongLongOf;
      ghost var r, end := Unread(), len;
      var p := pos;
      Window(buf.buf, p, end, 0, s);
      var bytelen := s + 2;
      var n := Scan.ReadLongLong(buf.buf, p, s);
      if n < 0 {
        pos := pos + bytelen;
        Window(buf.buf, p, end, s + 2, end - p);
        StoreLeaf(Nil, NilObject);
        return true;
      }
      bytelen := bytelen + n + 2;
      if pos + bytelen > len {
        return false;
      }
      var text := buf.buf[p + s + 2..p + s + 2 + n];
      Window(buf.buf, p, end, s + 2, s + 2 + n);
      pos := pos + bytelen;
      Window(buf.buf, p, end, s + 2 + n + 2, end - p);
      StoreLeaf(Bulk(text), TextObject(TString, text));
      return true;
    }

    /** The elements > 0 branch of processMultiBulkItem: the new array becomes the innermost open one. */
    method PushArray(elements: int)
      requires err.None? && BufferOk() && Reading()
      requires rstack[ridx].ty == TArray && ridx < 8 && elements > 0
      modifies this`heap, this`reply, this`ridx, this`rstack, this`frames
      ensures Reading() && State() == ParseState(old(frames) + [Frame(elements, [])], Unknown)
      ensures heap[..base] == old(heap[..base])
    {
      hide OpenImage, Image, Complete, SlotMatches, Unfilled;
      OpenArray(frames, base, elements);
      var obj := CreateObject(ArrayObject(elements, Nulls(elements)));
      assert heap[base..] == OpenImage(frames + [Frame(elements, [])], base, false);
      StackPush(rstack, frames, base, elements, obj, Task(Unknown, -1, 0, NULL, ridx));
      var root := ridx == 0;
      rstack := rstack[ridx := rstack[ridx].(elements := elements, obj := obj)];
      frames := frames + [Frame(elements, [])];
      ridx := ridx + 1;
      rstack := rstack[ridx := Task(Unknown, -1, 0, NULL, ridx - 1)];
      if root {
        NoFrames(base, Nil);
        reply := obj;
      }
    }

    /** processMultiBulkItem. */
    method ProcessMultiBulkItem() returns (ok: bool)
      requires err.None? && BufferOk() && Reading()
      requires rstack[ridx].ty == TArray
      requires !ArrayStep(State(), Unread()).Undefined?
      modifies this
      ensures After(old(ArrayStep(State(), Unread())), ok)
      ensures !ok && err.None? ==> State() == old(State()) && Unread() == old(Unread()) && ridx < 8
      ensures err.None? ==> buf == old(buf) && len == old(len)
      ensures base == old(base) && heap[..base] == old(heap[..base])
    {
      hide OpenImage, Image, Complete, SlotMatches, Unfilled, Finish, FindCrlf, LongLongOf;
      if ridx == 8 {
        SetError(TooDeep);
        return false;
      }
      ghost var r := Unread();
      var p, n := ReadLine();
      if p == -1 {
        return false;
      }
      var elements := Scan.ReadLongLong(buf.buf, p, n);
      if elements == -1 {
        StoreLeaf(Nil, NilObject);
      } else if elements > 0 {
        PushArray(elements);
      } else {
        StoreLeaf(Array(elements, []), ArrayObject(elements, []));
      }
      return true;
    }

    /** What the outcome o, known before some items were read, means for the reader after them. */
    ghost predicate Agrees(o: Outcome, ok: bool)
      reads this, buf, if buf == null then {} else {buf.buf}
    {
      if err.Some? then !ok && Dead() && o == Broken(err.value)
      else
        && BufferOk()
        && if ridx == -1 then ok && o.Emitted? && Finished(o.reply) && Unread() == o.rest
           else
             && Reading()
             && if ok then o == ReadOne(State(), Unread())
                else o == Waiting(State(), Unread()) && !(ridx == 8 && rstack[8].ty == TArray)
    }

    /** The body of processItem once the type of the item is known. */
    method ProcessTypedItem() returns (ok: bool)
      requires err.None? && BufferOk() && Reading()
      requires !rstack[ridx].ty.Unknown?
      requires !ReadOne(State(), Unread()).Unspecified?
      modifies this
      ensures Agrees(old(ReadOne(State(), Unread())), ok)
      ensures ok ==> |Unread()| < |old(Unread())|
      ensures len == if err.None? then old(len) else 0
      ensures err.None? ==> buf == old(buf)
      ensures base == old(base) && heap[..base] == old(heap[..base])
    {
      hide OpenImage, Image, SlotMatches, Unfilled, LineStep, BulkStep, ArrayStep;
      ghost var step := DoStep(State(), Unread());
      var ty := rstack[ridx].ty;
      if ty == TString {
        ok := ProcessBulkItem();
      } else if ty == TArray {
        ok := ProcessMultiBulkItem();
      } else {
        ok := ProcessLineItem();
      }
    }

    /** processItem. */
    method ProcessItem() returns (ok: bool)
      requires err.None? && BufferOk() && Reading()
      requires !ReadOne(State(), Unread()).Unspecified?
      modifies this
      ensures Agrees(old(ReadOne(State(), Unread())), ok)
      ensures ok ==> |Unread()| < |old(Unread())|
      ensures len == if err.None? then old(len) else 0
      ensures err.None? ==> buf == old(buf)
      ensures base == old(base) && heap[..base] == old(heap[..base])
    {
      hide OpenImage, Image, SlotMatches, Unfilled, LineStep, BulkStep, ArrayStep;
      if rstack[ridx].ty.Unknown? {
        ghost var r := Unread();
        if len - pos < 1 {
          return false;
        }
        var b := buf.buf[pos];
        assert b == r[0];
        pos := pos + 1;
        assert Unread() == r[1..];
        var ty := TypeOf(b);
        if ty.Unknown? {
          SetError(BadTypeByte(b));
          return false;
        }
        RetypeTop(rstack, frames, base, ty);
        rstack := rstack[ridx := rstack[ridx].(ty := ty)];
      }
      ok := ProcessTypedItem();
    }

    /** The first half of redisReaderFeed: an empty buffer that has grown large is replaced by a fresh one. */
    method DropLargeBuffer()
      requires BufferOk()
      modifies this`buf, this`pos
      ensures BufferOk() && Unread() == old(Unread()) && len == old(len) && fresh(Repr() - old(Repr()))
      ensures if old(len == 0 && maxbuf != 0 && buf.free > maxbuf) then fresh(buf) && buf.free == 0 && pos == 0
              else buf == old(buf) && pos == old(pos)
    {
      var avail := buf.Avail();
      if len == 0 && maxbuf != 0 && avail > maxbuf {
        buf := new Sds([]);
        pos := 0;
      }
    }

    /** The second half: the chunk goes behind what is there. */
    method Append(chunk: bytes)
      requires BufferOk() && len + |chunk| + SDS_MAX_PREALLOC <= INT_MAX
      modifies this`buf, this`pos, this`len, buf, buf.buf
      ensures BufferOk() && Unread() == old(Unread()) + chunk && fresh(Repr() - old(Repr()))
      ensures pos <= old(pos) && len == old(len) + |chunk|
    {
      DropLargeBuffer();
      ghost var text := buf.Contents();
      TailOfBoth(text, chunk, pos);
      buf.CatLen(chunk);
      assert buf.Contents() == text + chunk;
      len := buf.len;
    }

    /** redisReaderFeed: appends a chunk to the buffer; a reader that has seen an error takes nothing more. */
    method Feed(chunk: bytes) returns (ok: bool)
      requires Valid() && (err.None? ==> len + |chunk| + SDS_MAX_PREALLOC <= INT_MAX)
      modifies Repr()
      ensures Valid() && fresh(Repr() - old(Repr()))
      ensures err == old(err) && ok == err.None? && (!ok ==> len == old(len))
      ensures ok ==> State() == old(State()) && Unread() == old(Unread()) + chunk && len <= old(len) + |chunk|
      ensures heap == old(heap) && base == old(base)
    {
      hide OpenImage, Image, SlotMatches, Unfilled;
      if err.Some? {
        return false;
      }
      if |chunk| >= 1 {
        Append(chunk);
      }
      return true;
    }

    /** The loop of redisReaderGetReply over the items of one reply. */
    method ProcessItems()
      requires err.None? && BufferOk() && Reading()
      requires !ReadOne(State(), Unread()).Unspecified?
      modifies this
      ensures var o := old(ReadOne(State(), Unread()));
              if err.Some? then Dead() && o == Broken(err.value)
              else
                && BufferOk()
                && if ridx == -1 then o.Emitted? && Finished(o.reply) && Unread() == o.rest
                   else Reading() && o == Waiting(State(), Unread()) && !(ridx == 8 && rstack[8].ty == TArray)
      ensures err.None? ==> buf == old(buf)
      ensures len <= old(len)
      ensures base == old(base) && heap[..base] == old(heap[..base])
    {
      hide OpenImage, Image, SlotMatches, Unfilled, ReadOne, DoStep;
      ghost var o := ReadOne(State(), Unread());
      var ok := true;
      while ridx >= 0
        invariant Agrees(o, true)
        invariant err.None? && buf == old(buf) && len == old(len)
        invariant base == old(base) && heap[..base] == old(heap[..base])
        decreases if ridx >= 0 then |Unread()| + 1 else 0
      {
        ok := ProcessItem();
        if !ok {
          break;
        }
      }
    }

    /** Drops the part of the buffer that has been read once it reaches 1024 bytes. */
    method Discard()
      requires BufferOk()
      modifies this`pos, this`len, buf, buf.buf
      ensures BufferOk() && Unread() == old(Unread()) && buf.buf == old(buf.buf)
      ensures pos == (if old(pos) >= MAX_READ_PART then 0 else old(pos)) && old(len) - len == old(pos) - pos
    {
      if pos >= MAX_READ_PART {
        SliceSplits(buf.Contents(), pos);
        buf.Range(pos, -1);
        pos := 0;
        len := buf.len;
      }
    }

    /** redisReaderGetReply: the next reply, as the address of its root object, or NULL. */
    method GetReply() returns (ok: bool, r: int)
      requires Valid() && (err.None? ==> !ReadOne(State(), Unread()).Unspecified?)
      modifies Repr()
      ensures Valid() && fresh(Repr() - old(Repr()))
      ensures old(err.Some?) ==> !ok && r == NULL && err == old(err)
      ensures old(err.None?) ==>
                match old(ReadOne(State(), Unread()))
                case Emitted(v, rest) =>
                  && ok && err.None? && r == old(base) && Denotes(heap, r, v) && State() == START && Unread() == rest
                case Waiting(st, rest) => ok && err.None? && r == NULL && State() == st && Unread() == rest
                case Broken(e) => !ok && r == NULL && err == Some(e)
                case Unspecified => false
      ensures old(base) <= base <= |heap| && heap[..old(base)] == old(heap[..base])
      ensures r != NULL ==> base == |heap|
      ensures len <= old(len)
    {
      hide OpenImage, Image, SlotMatches, Unfilled, ReadOne, DoStep;
      r := NULL;
      if err.Some? {
        return false, NULL;
      }
      if len == 0 {
        NothingToRead(State());
        return true, NULL;
      }
      ghost var o := ReadOne(State(), Unread());
      Begin();
      ProcessItems();
      if err.Some? {
        return false, NULL;
      }
      Discard();
      r := HandOut(if o.Emitted? then o.reply else Nil);
      ok := true;
    }

    /** Without a task the stack gets its first one. */
    method Begin()
      requires Valid() && err.None?
      modifies this`rstack, this`ridx
      ensures BufferOk() && Reading() && State() == old(State())
    {
      hide OpenImage, Image, SlotMatches, Unfilled;
      if ridx == -1 {
        FreshStack(rstack, base);
        rstack := rstack[0 := NO_TASK];
        ridx := 0;
      }
    }

    /** The end of redisReaderGetReply: a finished reply is handed out. */
    method HandOut(ghost v: Reply) returns (r: int)
      requires err.None? && BufferOk() && pos < MAX_READ_PART
      requires ridx == -1 ==> Finished(v)
      requires ridx != -1 ==> Reading() && !(ridx == 8 && rstack[8].ty == TArray)
      modifies this`reply, this`base
      ensures Valid() && base >= old(base)
      ensures old(ridx) == -1 ==> r == old(base) && base == |heap| && Denotes(heap, r, v)
      ensures old(ridx) != -1 ==> r == NULL && base == old(base)
    {
      hide OpenImage, Image, SlotMatches, Unfilled;
      r := NULL;
      if ridx == -1 {
        r := reply;
        reply := NULL;
        base := |heap|;
      }
    }
  }
}
