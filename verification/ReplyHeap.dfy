/**
 Reply objects in memory. Addresses are indices into a heap of objects, so that the writes through
 parent->element[idx] that build a reply in place stay visible. A finished reply lies in memory in the order in
 which its objects were created: each array before its elements, the elements one after the other.
 */
module ReplyHeap {
  import opened Bytes
  import opened Resp

  const NULL: int := -1

  /** redisReply: `element` holds addresses, NULL where nothing has been stored yet. */
  datatype Object =
    | TextObject(ty: ItemType, str: bytes)
    | IntegerObject(integer: int)
    | NilObject
    | ArrayObject(elements: int, element: seq<int>)

  type Heap = seq<Object>

  function Size(v: Reply): (n: nat)
    ensures n >= 1
  {
    match v
    case Array(_, items) => 1 + SizeAll(items)
    case _ => 1
  }

  function SizeAll(vs: seq<Reply>): nat {
    if vs == [] then 0 else Size(vs[0]) + SizeAll(vs[1..])
  }

  /** The addresses of replies that lie one after the other from a on. */
  function Slots(vs: seq<Reply>, a: int): (s: seq<int>)
    ensures |s| == |vs|
  {
    if vs == [] then [] else [a] + Slots(vs[1..], a + Size(vs[0]))
  }

  /** The object of a reply without elements. */
  function Leaf(v: Reply): Object
    requires !v.Array? || v.items == []
  {
    match v
    case Bulk(s) => TextObject(TString, s)
    case Status(s) => TextObject(TStatus, s)
    case Error(s) => TextObject(TError, s)
    case Integer(i) => IntegerObject(i)
    case Nil => NilObject
    case Array(n, _) => ArrayObject(n, [])
  }

  /** The objects of a finished reply that starts at address a. */
  function Image(v: Reply, a: int): (h: Heap)
    ensures |h| == Size(v)
  {
    match v
    case Array(n, items) => [ArrayObject(n, Slots(items, a + 1))] + ImageAll(items, a + 1)
    case _ => [Leaf(v)]
  }

  function ImageAll(vs: seq<Reply>, a: int): (h: Heap)
    ensures |h| == SizeAll(vs)
  {
    if vs == [] then [] else Image(vs[0], a) + ImageAll(vs[1..], a + Size(vs[0]))
  }

  ghost predicate Denotes(heap: Heap, a: int, v: Reply) {
    0 <= a && a + Size(v) <= |heap| && heap[a..a + Size(v)] == Image(v, a)
  }

  function Nulls(n: nat): (s: seq<int>)
    ensures |s| == n && forall i :: 0 <= i < n ==> s[i] == NULL
  {
    if n == 0 then [] else [NULL] + Nulls(n - 1)
  }

  ghost predicate Unfilled(frames: seq<Frame>) {
    forall k :: 0 <= k < |frames| ==> |frames[k].done| < frames[k].elements
  }

  /** The slots of an open array whose next child, if it exists already, follows the finished ones. */
  function OpenSlots(f: Frame, a: int, child: bool): (s: seq<int>)
    requires |f.done| < f.elements
    ensures |s| == f.elements
  {
    Slots(f.done, a) + [if child then a + SizeAll(f.done) else NULL] + Nulls(f.elements - |f.done| - 1)
  }

  /** The objects of all open arrays from address a on; `child`: the innermost one has a child begun. */
  function OpenImage(frames: seq<Frame>, a: int, child: bool): Heap
    requires Unfilled(frames)
    decreases |frames|
  {
    if frames == [] then []
    else
      var f, outer := frames[|frames| - 1], frames[..|frames| - 1];
      OneOpen(OpenImage(outer, a, true), a, f, child)
  }

  /** The address of the k-th open array. */
  function AddressOf(frames: seq<Frame>, a: int, k: nat): int
    requires Unfilled(frames) && k <= |frames|
  {
    a + |OpenImage(frames[..k], a, true)|
  }

  lemma {:induction false} ChildDoesNotMove(frames: seq<Frame>, a: int)
    requires Unfilled(frames)
    ensures |OpenImage(frames, a, true)| == |OpenImage(frames, a, false)|
  {
  }

  lemma {:induction false} SizeSnoc(vs: seq<Reply>, v: Reply)
    ensures SizeAll(vs + [v]) == SizeAll(vs) + Size(v)
  {
    if vs == [] {
      assert vs + [v] == [v];
    } else {
      assert (vs + [v])[1..] == vs[1..] + [v];
      SizeSnoc(vs[1..], v);
    }
  }

  lemma {:induction false} SlotsSnoc(vs: seq<Reply>, v: Reply, a: int)
    ensures Slots(vs + [v], a) == Slots(vs, a) + [a + SizeAll(vs)]
  {
    if vs == [] {
      assert vs + [v] == [v];
    } else {
      assert (vs + [v])[1..] == vs[1..] + [v];
      SlotsSnoc(vs[1..], v, a + Size(vs[0]));
    }
  }

  lemma {:induction false} ImageSnoc(vs: seq<Reply>, v: Reply, a: int)
    ensures ImageAll(vs + [v], a) == ImageAll(vs, a) + Image(v, a + SizeAll(vs))
  {
    hide Image, Size;
    if vs == [] {
      assert vs + [v] == [v];
      assert ImageAll([v], a) == Image(v, a) + [];
    } else {
      var tail, b := vs[1..], a + Size(vs[0]);
      assert (vs + [v])[1..] == tail + [v];
      ImageSnoc(tail, v, b);
      assert ImageAll(vs + [v], a) == Image(vs[0], a) + (ImageAll(tail, b) + Image(v, b + SizeAll(tail)));
    }
  }

  /** An object is created for the next item: its address is written into the parent's slot. */
  lemma StoreInParent(frames: seq<Frame>, a: int)
    requires frames != [] && Unfilled(frames)
    ensures var k := |frames| - 1;
            var h := OpenImage(frames, a, false);
            var p := |OpenImage(frames[..k], a, true)|;
            && p < |h| && h[p].ArrayObject? && |h[p].element| == frames[k].elements
            && h[p].element[|frames[k].done|] == NULL
            && h[p := h[p].(element := h[p].element[|frames[k].done| := a + |h|])] == OpenImage(frames, a, true)
  {
    hide ImageAll, Slots, SizeAll;
    var k := |frames| - 1;
    var f := frames[k];
    var pre := OpenImage(frames[..k], a, true);
    var b := a + |pre| + 1;
    assert OpenSlots(f, b, false)[|f.done| := b + SizeAll(f.done)] == OpenSlots(f, b, true);
  }

  lemma OpenNested(frames: seq<Frame>, a: int, f: Frame, child: bool)
    requires Unfilled(frames) && |f.done| < f.elements
    ensures Unfilled(frames + [f])
    ensures OpenImage(frames + [f], a, child) == OneOpen(OpenImage(frames, a, true), a, f, child)
  {
    hide OpenSlots, ImageAll;
    assert (frames + [f])[..|frames|] == frames;
  }

  /** The objects of one more open array after those of the outer ones. */
  function OneOpen(pre: Heap, a: int, f: Frame, child: bool): (h: Heap)
    requires |f.done| < f.elements
    ensures |h| == |pre| + 1 + SizeAll(f.done)
  {
    pre + [ArrayObject(f.elements, OpenSlots(f, a + |pre| + 1, child))] + ImageAll(f.done, a + |pre| + 1)
  }

  /** A fresh array of n slots becomes the innermost open one. */
  lemma OpenArray(frames: seq<Frame>, a: int, n: nat)
    requires Unfilled(frames) && n > 0
    ensures Unfilled(frames + [Frame(n, [])])
    ensures OpenImage(frames + [Frame(n, [])], a, false)
         == OpenImage(frames, a, true) + [ArrayObject(n, Nulls(n))]
  {
    hide OpenImage;
    OpenNested(frames, a, Frame(n, []), false);
    var pre := OpenImage(frames, a, true);
    assert OpenSlots(Frame(n, []), a + |pre| + 1, false) == Nulls(n);
  }

  lemma SlotsAfterItem(f: Frame, v: Reply, b: int)
    requires |f.done| < f.elements
    ensures if |f.done| + 1 < f.elements
            then OpenSlots(f, b, true) == OpenSlots(f.(done := f.done + [v]), b, false)
            else OpenSlots(f, b, true) == Slots(f.done + [v], b)
  {
    SlotsSnoc(f.done, v, b);
  }

  lemma ImageOfArray(n: int, items: seq<Reply>, a: int)
    ensures Image(Array(n, items), a) == [ArrayObject(n, Slots(items, a + 1))] + ImageAll(items, a + 1)
  {
  }

  lemma ImageOfLeaf(v: Reply, a: int)
    requires !v.Array? || v.items == []
    ensures Image(v, a) == [Leaf(v)]
  {
  }

  lemma Regroup(p: Heap, q: Heap, x: Heap, y: Heap)
    ensures p + q + (x + y) == p + q + x + y
    ensures p + (q + x) == p + q + x
  {
  }

  /** A finished item in an array that is not full yet. */
  lemma StoreItem(frames: seq<Frame>, a: int, f: Frame, v: Reply)
    requires Unfilled(frames) && |f.done| + 1 < f.elements
    ensures Unfilled(frames + [f]) && Unfilled(frames + [f.(done := f.done + [v])])
    ensures var open := OpenImage(frames + [f], a, true);
            OpenImage(frames + [f.(done := f.done + [v])], a, false) == open + Image(v, a + |open|)
  {
    hide OpenImage, OpenSlots, ImageAll, SizeAll, Image, Size;
    var g := f.(done := f.done + [v]);
    OpenNested(frames, a, f, true);
    OpenNested(frames, a, g, false);
    var pre := OpenImage(frames, a, true);
    var b := a + |pre| + 1;
    SlotsAfterItem(f, v, b);
    ImageSnoc(f.done, v, b);
    Regroup(pre, [ArrayObject(f.elements, OpenSlots(f, b, true))], ImageAll(f.done, b), Image(v, b + SizeAll(f.done)));
  }

  /** A finished item that fills its array: the array is now the finished item of the next outer one. */
  lemma {:induction false} CloseArray(frames: seq<Frame>, a: int, f: Frame, v: Reply)
    requires Unfilled(frames) && |f.done| + 1 == f.elements
    ensures Unfilled(frames + [f])
    ensures var open, outer := OpenImage(frames + [f], a, true), OpenImage(frames, a, true);
            open + Image(v, a + |open|) == outer + Image(Array(f.elements, f.done + [v]), a + |outer|)
  {
    hide OpenImage, OpenSlots, ImageAll, SizeAll, Image, Size, Slots;
    var outer := OpenImage(frames, a, true);
    var b := a + |outer| + 1;
    var top := [ArrayObject(f.elements, Slots(f.done + [v], b))];
    ImageOfArray(f.elements, f.done + [v], a + |outer|);
    OpenNested(frames, a, f, true);
    SlotsAfterItem(f, v, b);
    ImageSnoc(f.done, v, b);
    Regroup(outer, top, ImageAll(f.done, b), Image(v, b + SizeAll(f.done)));
    Regroup(outer, top, ImageAll(f.done + [v], b), []);
  }

  // ------------------------------------------------------ following the addresses

  /** The tree that a client sees by following the element addresses from the object at address a. */
  function TreeAt(heap: Heap, a: int): Reply
    decreases |heap| - a, 1, 0
  {
    if !(0 <= a < |heap|) then Nil
    else
      match heap[a]
      case TextObject(TString, s) => Bulk(s)
      case TextObject(TStatus, s) => Status(s)
      case TextObject(_, s) => Error(s)
      case IntegerObject(i) => Integer(i)
      case NilObject => Nil
      case ArrayObject(n, element) => Array(n, TreesAt(heap, element, a))
  }

  function TreesAt(heap: Heap, addresses: seq<int>, above: int): (vs: seq<Reply>)
    requires 0 <= above < |heap|
    ensures |vs| == |addresses|
    decreases |heap| - above, 0, |addresses|
  {
    if addresses == [] then []
    else
      [if addresses[0] <= above then Nil else TreeAt(heap, addresses[0])] + TreesAt(heap, addresses[1..], above)
  }

  /** The layout is faithful: the client sees exactly the reply. */
  lemma {:induction false} DenotesTree(heap: Heap, a: int, v: Reply)
    requires Denotes(heap, a, v)
    ensures TreeAt(heap, a) == v
    decreases v, 0
  {
    assert heap[a] == Image(v, a)[0];
    match v
    case Array(n, items) =>
      assert heap[a + 1..a + 1 + SizeAll(items)] == Image(v, a)[1..] == ImageAll(items, a + 1);
      DenotesTrees(heap, a + 1, items, a);
    case _ =>
  }

  lemma SliceInSlice(h: Heap, a: nat, b: nat, c: nat)
    requires a <= b <= c <= |h|
    ensures h[a..b] == h[a..c][..b - a] && h[b..c] == h[a..c][b - a..]
  {
  }

  lemma {:induction false} DenotesTrees(heap: Heap, a: int, vs: seq<Reply>, above: int)
    requires 0 <= above < a && above < |heap| && a + SizeAll(vs) <= |heap|
    requires heap[a..a + SizeAll(vs)] == ImageAll(vs, a)
    ensures TreesAt(heap, Slots(vs, a), above) == vs
    decreases vs, 1
  {
    hide Image, Size;
    if vs != [] {
      var n, b := Size(vs[0]), a + Size(vs[0]);
      SliceInSlice(heap, a, b, a + SizeAll(vs));
      assert ImageAll(vs, a)[..n] == Image(vs[0], a) && ImageAll(vs, a)[n..] == ImageAll(vs[1..], b);
      DenotesTree(heap, a, vs[0]);
      DenotesTrees(heap, b, vs[1..], above);
      assert [vs[0]] + vs[1..] == vs;
    }
  }

  lemma DenotesSurvives(heap: Heap, heap': Heap, a: int, v: Reply)
    requires Denotes(heap, a, v) && heap <= heap'
    ensures Denotes(heap', a, v)
  {
  }
}
