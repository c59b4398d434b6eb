/**
 The asynchronous context (async.c) as code: a linked list of callbacks, flags, and methods that callbacks may call
 again while they run. Every method is proved to do what AsyncSpec says, on the value that the context stands for.
 */
module Async {
  import opened Bytes
  import opened Resp
  import opened AsyncSpec

  /** redisCallback as a list node. */
  class Node {
    const cb: Callback
    var next: Node?

    constructor (cb: Callback)
      ensures this.cb == cb && next == null
    {
      this.cb := cb;
      next := null;
    }
  }

  ghost function NodeAt(nodes: seq<Node>, i: nat): Node? {
    if i < |nodes| then nodes[i] else null
  }

  function CallbacksOf(nodes: seq<Node>): (s: seq<Callback>)
    ensures |s| == |nodes|
  {
    if nodes == [] then [] else [nodes[0].cb] + CallbacksOf(nodes[1..])
  }

  lemma {:induction false} CallbacksOfSnoc(nodes: seq<Node>, node: Node)
    ensures CallbacksOf(nodes + [node]) == CallbacksOf(nodes) + [node.cb]
  {
    if nodes == [] {
      assert nodes + [node] == [node];
    } else {
      assert (nodes + [node])[1..] == nodes[1..] + [node];
      CallbacksOfSnoc(nodes[1..], node);
    }
  }

  ghost predicate Chain(head: Node?, tail: Node?, nodes: seq<Node>)
    reads nodes
  {
    && head == NodeAt(nodes, 0)
    && (if nodes == [] then tail == null else tail == nodes[|nodes| - 1])
    && (forall i :: 0 <= i < |nodes| ==> nodes[i].next == NodeAt(nodes, i + 1))
    && (forall i, j :: 0 <= i < j < |nodes| ==> nodes[i] != nodes[j])
  }

  lemma ChainEnds(head: Node?, tail: Node?, nodes: seq<Node>)
    requires Chain(head, tail, nodes)
    ensures (head == null <==> nodes == []) && (tail == null <==> nodes == [])
    ensures tail != null ==> tail in nodes
  {
  }

  /** The list after a fresh node has been hung behind its tail. */
  twostate lemma ChainGrown(head: Node?, new tail: Node?, new nodes: seq<Node>, new node: Node, new head': Node)
    requires old(allocated(tail)) && old(allocated(nodes))
    requires old(Chain(head, tail, nodes)) && node !in nodes && node.next == null
    requires forall n :: n in nodes ==> n.next == if n == tail then node else old(n.next)
    requires head' == if head == null then node else head
    ensures Chain(head', node, nodes + [node])
  {
    var all := nodes + [node];
    forall i | 0 <= i < |all| ensures all[i].next == NodeAt(all, i + 1) {
      if i < |nodes| {
        assert nodes[i] in nodes && old(nodes[i].next) == NodeAt(nodes, i + 1);
      }
    }
  }

  lemma ChainTail(head: Node, tail: Node?, nodes: seq<Node>)
    requires Chain(head, tail, nodes)
    ensures nodes != [] && head == nodes[0] && (head == tail <==> |nodes| == 1)
    ensures Chain(head.next, if head == tail then null else tail, nodes[1..])
    ensures forall n :: n in nodes[1..] ==> n in nodes
  {
    var rest := nodes[1..];
    assert nodes[0].next == NodeAt(nodes, 1);
    forall i | 0 <= i < |rest| ensures rest[i].next == NodeAt(rest, i + 1) {
      assert rest[i] == nodes[i + 1];
    }
  }

  /** redisCallbackList. */
  class CallbackList {
    var head: Node?
    var tail: Node?
    ghost var nodes: seq<Node>

    ghost predicate Valid()
      reads this, nodes
    {
      Chain(head, tail, nodes)
    }

    ghost function Contents(): seq<Callback>
      reads this
    {
      CallbacksOf(nodes)
    }

    ghost function Repr(): set<object>
      reads this
    {
      {this} + set n | n in nodes :: n as object
    }

    constructor ()
      ensures Valid() && Contents() == [] && fresh(Repr())
    {
      head, tail, nodes := null, null, [];
    }

    /** __redisPushCallback. */
    method Push(cb: Callback)
      requires Valid()
      modifies Repr()
      ensures Valid() && fresh(Repr() - old(Repr()))
      ensures Contents() == old(Contents()) + [cb]
    {
      hide CallbacksOf, Chain;
      var node := new Node(cb);
      ChainEnds(head, tail, nodes);
      if head == null {
        head := node;
      }
      CallbacksOfSnoc(nodes, node);
      if tail != null {
        tail.next := node;
      }
      ChainGrown(old(head), old(tail), nodes, node, head);
      tail := node;
      nodes := nodes + [node];
    }

    /** __redisShiftCallback: the first callback, or false for an empty list. */
    method Shift() returns (ok: bool, target: Option<Callback>)
      requires Valid()
      modifies this
      ensures Valid() && Repr() <= old(Repr())
      ensures ok == (old(Contents()) != []) == target.Some?
      ensures ok ==> target.value == old(Contents())[0] && Contents() == old(Contents())[1..]
      ensures !ok ==> Contents() == []
    {
      var node := head;
      if node == null {
        return false, None;
      }
      ChainTail(head, tail, nodes);
      head := node.next;
      if node == tail {
        tail := null;
      }
      nodes := nodes[1..];
      return true, Some(node.cb);
    }
  }

  /** redisAsyncContext, for regular commands. */
  class AsyncContext {
    var connected: bool
    var disconnecting: bool
    var freeing: bool
    var inCallback: bool
    var err: bool
    const replies: CallbackList
    var obuf: nat                      // bytes waiting to be written
    ghost var freed: nat               // how often the context has been freed
    ghost var abort: Abort             // the assertion that has failed, if any
    ghost var accepted: seq<Callback>
    ghost var log: seq<Dispatch>

    ghost predicate Valid()
      reads this, replies, replies.nodes
    {
      replies.Valid()
    }

    ghost function Repr(): set<object>
      reads this, replies
    {
      {this as object} + replies.Repr()
    }

    /** The value that the specification speaks about. */
    ghost function State(): Conn
      reads this, replies
    {
      Conn(connected, disconnecting, freeing, inCallback, err, replies.Contents(), obuf, freed, abort, accepted, log)
    }

    /** redisAsyncInitialize. */
    constructor ()
      ensures Valid() && State() == INITIAL && fresh(Repr())
    {
      connected, disconnecting, freeing, inCallback, err := false, false, false, false, false;
      replies := new CallbackList();
      obuf, freed, abort, accepted, log := 0, 0, Alive, [], [];
    }

    /** __redisAsyncCommand for a regular command. */
    method AsyncCommand(cb: Callback, size: nat) returns (ok: bool)
      requires Valid()
      modifies Repr()
      ensures Valid() && fresh(Repr() - old(Repr()))
      ensures State() == Submit(old(State()), cb, size) && ok == !old(State().Closing())
    {
      if disconnecting || freeing {
        return false;
      }
      replies.Push(cb);
      obuf := obuf + size;
      accepted := accepted + [cb];
      ok := true;
    }

    /** redisAsyncDisconnect. */
    method AsyncDisconnect()
      requires Valid() && State().Running()
      modifies Repr()
      ensures Valid() && fresh(Repr() - old(Repr()))
      ensures State() ==
              if old(inCallback) then CallInside(old(State()), Disconnect) else CallOutside(old(State()), Disconnect)
      decreases if inCallback then 0 else 1, 5
    {
      hide Run, Drain, Chain, CallbacksOf;
      disconnecting := true;
      HeadOfList(replies);
      if !inCallback && replies.head == null {
        DoDisconnect();
      }
    }

    /** redisAsyncFree. */
    method AsyncFree()
      requires Valid() && State().Running()
      modifies Repr()
      ensures Valid() && fresh(Repr() - old(Repr()))
      ensures State() == if old(inCallback) then CallInside(old(State()), Free) else CallOutside(old(State()), Free)
      decreases if inCallback then 0 else 1, 5
    {
      hide Run, Drain, Chain, CallbacksOf;
      freeing := true;
      if !inCallback {
        DoFree();
      }
    }

    /** One call of the API, from a callback or from outside. */
    method Perform(call: Call)
      requires Valid() && State().Running()
      modifies Repr()
      ensures Valid() && fresh(Repr() - old(Repr()))
      ensures State() == if old(inCallback) then CallInside(old(State()), call) else CallOutside(old(State()), call)
      decreases if inCallback then 0 else 1, 6
    {
      hide Run, Drain, Chain, CallbacksOf, Teardown, Shutdown;
      match call
      case Command(cb, size) => var ok := AsyncCommand(cb, size);
      case Disconnect => AsyncDisconnect();
      case Free => AsyncFree();
    }

    /** __redisRunCallback. The callback's own calls run while the flag is set. */
    method RunCallback(cb: Callback, reply: Option<Reply>)
      requires Valid() && !inCallback && State().Running()
      modifies Repr()
      ensures Valid() && fresh(Repr() - old(Repr()))
      ensures State() == Run(old(State()), cb, reply)
      decreases if inCallback then 0 else 1, 1
    {
      hide CallInside, CallOutside, Chain, CallbacksOf, CallbackList.Valid;
      if !cb.hasFn {
        return;
      }
      inCallback := true;
      ghost var start := State();
      var calls := if reply.Some? then cb.onReply else cb.onNull;
      assert calls[0..] == calls;
      for i := 0 to |calls|
        invariant Valid() && fresh(Repr() - old(Repr())) && inCallback && State().Running()
        invariant CallsInside(State(), calls[i..]) == CallsInside(start, calls)
      {
        assert calls[i..][1..] == calls[i + 1..];
        CallInsideKeeps(State(), calls[i]);
        Perform(calls[i]);
      }
      inCallback := false;
    }

    /** The next callback leaves the list and runs; false if there is none. */
    method DispatchNext(reply: Option<Reply>) returns (ok: bool, hasFn: bool)
      requires Valid() && !inCallback && State().Running()
      modifies Repr()
      ensures Valid() && fresh(Repr() - old(Repr()))
      ensures ok == (old(State().pending) != [])
      ensures ok ==> State() == Dispatched(old(State()), reply) && hasFn == old(State().pending)[0].hasFn
      ensures !ok ==> State() == old(State())
      decreases if inCallback then 0 else 1, 2
    {
      hide Run, Chain, CallbacksOf, CallbackList.Valid;
      var shifted, cb := replies.Shift();
      if !shifted {
        return false, false;
      }
      log := log + [Dispatch(cb.value, reply)];
      RunCallback(cb.value, reply);
      return true, cb.value.hasFn;
    }

    /** __redisAsyncFree: the callbacks that are left run with NULL, then the context is gone. */
    method DoFree()
      requires Valid() && !inCallback && State().Running() && State().Closing()
      modifies Repr()
      ensures Valid() && fresh(Repr() - old(Repr()))
      ensures State() == Teardown(old(State()))
      decreases if inCallback then 0 else 1, 3
    {
      hide Run, Chain, CallbacksOf, Dispatched, Drain, CallbackList.Valid;
      DrainStep(State());
      var ok, hasFn := DispatchNext(None);
      while ok
        invariant Valid() && fresh(Repr() - old(Repr())) && !inCallback && State().Running() && State().Closing()
        invariant Drain(State()) == Drain(old(State()))
        invariant !ok ==> State().pending == []
        decreases |State().pending|, ok
      {
        DrainStep(State());
        ok, hasFn := DispatchNext(None);
      }
      DrainStep(State());
      freed := freed + 1;
    }

    /** __redisAsyncDisconnect. */
    method DoDisconnect()
      requires Valid() && !inCallback && State().Running() && (State().Closing() || err)
      modifies Repr()
      ensures Valid() && fresh(Repr() - old(Repr()))
      ensures State() == Shutdown(old(State()))
      decreases if inCallback then 0 else 1, 4
    {
      hide Teardown, Chain, CallbacksOf;
      HeadOfList(replies);
      if !err {
        // the C code asserts that shifting a callback fails
        if replies.head != null {
          abort := PendingAtCleanDisconnect;
          return;
        }
      } else {
        disconnecting := true;
      }
      DoFree();
    }

    /** redisProcessCallbacks, on the replies that the reader has; readerOk is false if it then reports an error. */
    method ProcessCallbacks(incoming: seq<Reply>, readerOk: bool)
      requires Valid() && !inCallback && State().Running()
      modifies Repr()
      ensures Valid() && fresh(Repr() - old(Repr()))
      ensures State() == Process(old(State()), incoming, readerOk)
    {
      hide Run, Dispatched, Chain, CallbacksOf, Shutdown, Teardown, CallbackList.Valid, Process;
      ghost var start := State();
      assert incoming[0..] == incoming;
      for i := 0 to |incoming|
        invariant Valid() && fresh(Repr() - old(Repr())) && !inCallback && State().Running()
        invariant Process(State(), incoming[i..], readerOk) == Process(start, incoming, readerOk)
      {
        ProcessStep(State(), incoming[i..], readerOk);
        if State().pending != [] {
          DispatchKeeps(State(), Some(incoming[i]));
        }
        assert incoming[i..][1..] == incoming[i + 1..];
        var ok, hasFn := DispatchNext(Some(incoming[i]));
        if !ok {
          if incoming[i].Error? {
            err := true;
            DoDisconnect();
            return;
          }
          // the C code asserts that the context is subscribed or monitoring
          abort := ReplyWithoutCommand;
          return;
        }
        if hasFn && freeing {
          DoFree();
          return;
        }
      }
      ProcessEnd(State(), incoming[|incoming|..], readerOk);
      if !readerOk {
        err := true;
        DoDisconnect();
      } else if disconnecting && obuf == 0 {
        DoDisconnect();
      }
    }

    /** __redisAsyncHandleConnect; true if the event may go on. */
    method HandleConnect(h: Handshake) returns (ok: bool)
      requires Valid() && !inCallback && State().Running() && !connected
      modifies Repr()
      ensures Valid() && fresh(Repr() - old(Repr()))
      ensures State() == Handshaken(old(State()), h) && ok == !h.Refused?
    {
      hide Chain, CallbacksOf, Shutdown;
      if h == Refused {
        err := true;
        DoDisconnect();
        return false;
      }
      if h == Connected {
        connected := true;
      } else {
        // tried again later, but the check has left its error in the context
        err := true;
      }
      ok := true;
    }

    /** redisAsyncHandleRead; `failed`: redisBufferRead fails, otherwise it makes these replies available. */
    method HandleReadEvent(h: Handshake, failed: bool, incoming: seq<Reply>, readerOk: bool)
      requires Valid() && !inCallback && State().Running()
      modifies Repr()
      ensures Valid() && fresh(Repr() - old(Repr()))
      ensures State() == HandleRead(old(State()), h, failed, incoming, readerOk)
    {
      hide Chain, CallbacksOf, Shutdown, Process, CallbackList.Valid;
      RefusedStops(State());
      if !connected {
        var ok := HandleConnect(h);
        if !ok {
          return;
        }
        if !connected {
          return;
        }
      }
      if failed || err {
        err := true;
        DoDisconnect();
      } else {
        ProcessCallbacks(incoming, readerOk);
      }
    }

    /** redisAsyncHandleWrite; `failed`: redisBufferWrite fails, otherwise `written` bytes have gone out. */
    method HandleWriteEvent(h: Handshake, failed: bool, written: nat)
      requires Valid() && !inCallback && State().Running()
      modifies Repr()
      ensures Valid() && fresh(Repr() - old(Repr()))
      ensures State() == HandleWrite(old(State()), h, failed, written)
    {
      hide Chain, CallbacksOf, Shutdown, CallbackList.Valid;
      RefusedStops(State());
      if !connected {
        var ok := HandleConnect(h);
        if !ok {
          return;
        }
        if !connected {
          return;
        }
      }
      if failed || err {
        err := true;
        DoDisconnect();
      } else {
        obuf := if written >= obuf then 0 else obuf - written;
      }
    }
  }

  /** A refused connection is gone. */
  lemma RefusedStops(c: Conn)
    requires c.Running() && !c.inCallback
    ensures !Shutdown(c.(err := true)).Running()
  {
    hide Drain;
    DrainFreed(c.(err := true, disconnecting := true));
  }

  lemma DrainFreed(c: Conn)
    requires c.Closing()
    ensures Drain(c).freed == c.freed
  {
    DrainAlive(c);
  }

  /** The loop of redisProcessCallbacks, one reply at a time. */
  lemma ProcessStep(c: Conn, incoming: seq<Reply>, ok: bool)
    requires c.Running() && incoming != []
    ensures c.pending == [] && incoming[0].Error? ==> Process(c, incoming, ok) == Shutdown(c.(err := true))
    ensures c.pending == [] && !incoming[0].Error? ==> Process(c, incoming, ok) == c.(abort := ReplyWithoutCommand)
    ensures c.pending != [] ==>
              var d := Dispatched(c, Some(incoming[0]));
              if c.pending[0].hasFn && d.freeing then Process(c, incoming, ok) == Teardown(d)
              else Process(c, incoming, ok) == Process(d, incoming[1..], ok)
  {
    hide Dispatched, Drain;
    if c.pending == [] {
      if !c.inCallback {
        RefusedStops(c);
      }
      DrainAlive(c.(err := true, disconnecting := true));
    } else {
      var d := Dispatched(c, Some(incoming[0]));
      DispatchKeeps(c, Some(incoming[0]));
      if d.freeing {
        DrainAlive(d);
      }
    }
  }

  lemma ProcessEnd(c: Conn, incoming: seq<Reply>, ok: bool)
    requires c.Running() && incoming == []
    ensures Process(c, incoming, ok)
         == if !ok then Shutdown(c.(err := true)) else if c.disconnecting && c.obuf == 0 then Shutdown(c) else c
  {
    hide Shutdown;
  }

  lemma HeadOfList(list: CallbackList)
    requires list.Valid()
    ensures list.head == null <==> list.Contents() == []
  {
  }

  /** One turn of the teardown loop: nothing is registered, and the context stays as it is otherwise. */
  lemma DrainStep(c: Conn)
    requires c.Closing() && !c.inCallback
    ensures c.pending == [] ==> Drain(c) == c
    ensures c.pending != [] ==>
              var d := Dispatched(c, None);
              && Drain(c) == Drain(d) && d.pending == c.pending[1..]
              && d.Closing() && !d.inCallback && d.freed == c.freed && d.abort == c.abort
  {
    if c.pending != [] {
      DispatchKeeps(c, None);
    }
  }

  lemma CallInsideKeeps(c: Conn, call: Call)
    ensures CallInside(c, call).inCallback == c.inCallback
    ensures CallInside(c, call).freed == c.freed && CallInside(c, call).abort == c.abort
  {
  }
}
