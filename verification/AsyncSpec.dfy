/**
 The life of an asynchronous connection (async.c) as steps on values, for regular commands: callbacks wait in a
 FIFO, replies take them out in order, and a teardown runs those that are left with a NULL reply.
 */
module AsyncSpec {
  import opened Bytes
  import opened Resp

  /**
   A registered callback. `hasFn` is false for a NULL function. What its code does with the API when it is run
   with a reply, or with NULL, may be any two lists of calls.
   */
  datatype Callback = Callback(privdata: int, hasFn: bool, onReply: seq<Call>, onNull: seq<Call>)

  /** A call of the API: a command of `size` bytes with its callback, a clean disconnect, a free. */
  datatype Call = Command(cb: Callback, size: nat) | Disconnect | Free

  /** A callback that has left the list, and the reply it was given (None for NULL). */
  datatype Dispatch = Dispatch(cb: Callback, reply: Option<Reply>)

  /** The assertions that abort the program. */
  datatype Abort = Alive | PendingAtCleanDisconnect | ReplyWithoutCommand

  datatype Conn = Conn(
    connected: bool, disconnecting: bool, freeing: bool, inCallback: bool, err: bool,
    pending: seq<Callback>, obuf: nat, freed: nat, abort: Abort,
    accepted: seq<Callback>,   // callbacks of all accepted commands
    log: seq<Dispatch>)        // callbacks taken out of the list so far, in order
  {
    predicate Closing() { disconnecting || freeing }
    predicate Running() { freed == 0 && abort.Alive? }
  }

  const INITIAL := Conn(false, false, false, false, false, [], 0, 0, Alive, [], [])

  /** The regular-command path of __redisAsyncCommand. */
  function Submit(c: Conn, cb: Callback, size: nat): Conn {
    if c.Closing() then c
    else c.(pending := c.pending + [cb], obuf := c.obuf + size, accepted := c.accepted + [cb])
  }

  /** A call made by a callback: disconnecting and freeing are only noted. */
  function CallInside(c: Conn, call: Call): Conn {
    match call
    case Command(cb, size) => Submit(c, cb, size)
    case Disconnect => c.(disconnecting := true)
    case Free => c.(freeing := true)
  }

  function CallsInside(c: Conn, calls: seq<Call>): (c': Conn)
    ensures c.Closing() ==> c'.Closing() && c'.pending == c.pending
    decreases |calls|
  {
    if calls == [] then c else CallsInside(CallInside(c, calls[0]), calls[1..])
  }

  /** __redisRunCallback. */
  function Run(c: Conn, cb: Callback, reply: Option<Reply>): Conn {
    if !cb.hasFn then c
    else CallsInside(c.(inCallback := true), if reply.Some? then cb.onReply else cb.onNull).(inCallback := false)
  }

  /** __redisShiftCallback, and the call. */
  function Dispatched(c: Conn, reply: Option<Reply>): Conn
    requires c.pending != []
  {
    var cb := c.pending[0];
    Run(c.(pending := c.pending[1..], log := c.log + [Dispatch(cb, reply)]), cb, reply)
  }

  /** The drain in __redisAsyncFree. It ends because nothing can be registered any more. */
  function Drain(c: Conn): (c': Conn)
    requires c.Closing()
    ensures c'.pending == [] && c'.Closing()
    decreases |c.pending|
  {
    if c.pending == [] then c else Drain(Dispatched(c, None))
  }

  /** __redisAsyncFree. */
  function Teardown(c: Conn): Conn
    requires c.Closing()
  {
    var d := Drain(c);
    d.(freed := d.freed + 1)
  }

  /** __redisAsyncDisconnect. A clean disconnect asserts that no callback is pending. */
  function Shutdown(c: Conn): Conn
    requires c.Closing() || c.err
  {
    if c.err then Teardown(c.(disconnecting := true))
    else if c.pending != [] then c.(abort := PendingAtCleanDisconnect)
    else Teardown(c)
  }

  /** The loop of redisProcessCallbacks over the replies that are there; it may end in a teardown. */
  function Consume(c: Conn, replies: seq<Reply>): Conn
    decreases |replies|
  {
    if replies == [] || !c.Running() then c
    else if c.pending == [] then
      if replies[0].Error? then Shutdown(c.(err := true)) else c.(abort := ReplyWithoutCommand)
    else
      var d := Dispatched(c, Some(replies[0]));
      if c.pending[0].hasFn && d.freeing then Teardown(d) else Consume(d, replies[1..])
  }

  /** redisProcessCallbacks. `ok` is false if the reader then meets a protocol error. */
  function Process(c: Conn, replies: seq<Reply>, ok: bool): Conn {
    var d := Consume(c, replies);
    if !d.Running() then d
    else if !ok then Shutdown(d.(err := true))
    else if d.disconnecting && d.obuf == 0 then Shutdown(d)
    else d
  }

  // -------------------------------------------------------------------- events

  /** What connecting has come to when the first event fires. */
  datatype Handshake = InProgress | Refused | Connected

  datatype Event =
    | Client(call: Call)                                                        // a call from outside callbacks
    | Readable(handshake: Handshake, failed: bool, replies: seq<Reply>, ok: bool)  // redisAsyncHandleRead
    | Writable(handshake: Handshake, failed: bool, written: nat)                // redisAsyncHandleWrite

  function CallOutside(c: Conn, call: Call): Conn {
    match call
    case Command(cb, size) => Submit(c, cb, size)
    case Disconnect =>
      var d := c.(disconnecting := true);
      if d.pending == [] then Shutdown(d) else d
    case Free => Teardown(c.(freeing := true))
  }

  /**
   __redisAsyncHandleConnect, for a context that is not connected yet. While connecting is still in progress the
   check of the socket has left its error in the context.
   */
  function Handshaken(c: Conn, h: Handshake): Conn {
    if c.connected then c
    else
      match h
      case InProgress => c.(err := true)
      case Refused => Shutdown(c.(err := true))
      case Connected => c.(connected := true)
  }

  function HandleRead(c0: Conn, h: Handshake, failed: bool, replies: seq<Reply>, ok: bool): Conn {
    var c := Handshaken(c0, h);
    if !c.Running() || !c.connected then c
    else if failed || c.err then Shutdown(c.(err := true))
    else Process(c, replies, ok)
  }

  function HandleWrite(c0: Conn, h: Handshake, failed: bool, written: nat): Conn {
    var c := Handshaken(c0, h);
    if !c.Running() || !c.connected then c
    else if failed || c.err then Shutdown(c.(err := true))
    else c.(obuf := if written >= c.obuf then 0 else c.obuf - written)
  }

  /** Nothing happens to a context that is gone. */
  function Next(c: Conn, e: Event): Conn {
    if !c.Running() then c
    else
      match e
      case Client(call) => CallOutside(c, call)
      case Readable(h, failed, replies, ok) => HandleRead(c, h, failed, replies, ok)
      case Writable(h, failed, written) => HandleWrite(c, h, failed, written)
  }

  function RunEvents(c: Conn, events: seq<Event>): Conn
    decreases |events|
  {
    if events == [] then c else RunEvents(Next(c, events[0]), events[1..])
  }

  // ------------------------------------------------------------ exactly once

  function Callbacks(log: seq<Dispatch>): seq<Callback> {
    if log == [] then [] else [log[0].cb] + Callbacks(log[1..])
  }

  lemma {:induction false} CallbacksSnoc(log: seq<Dispatch>, d: Dispatch)
    ensures Callbacks(log + [d]) == Callbacks(log) + [d.cb]
  {
    if log == [] {
      assert log + [d] == [d];
    } else {
      assert (log + [d])[1..] == log[1..] + [d];
      CallbacksSnoc(log[1..], d);
    }
  }

  lemma {:induction false} CallbacksAt(log: seq<Dispatch>)
    ensures |Callbacks(log)| == |log|
    ensures forall i :: 0 <= i < |log| ==> Callbacks(log)[i] == log[i].cb
  {
    if log != [] {
      CallbacksAt(log[1..]);
    }
  }

  /** The first n dispatches answered the replies rs in order; those after them got NULL. */
  ghost predicate Answers(log: seq<Dispatch>, rs: seq<Reply>) {
    && |rs| <= |log|
    && (forall i :: 0 <= i < |rs| ==> log[i].reply == Some(rs[i]))
    && (forall i :: |rs| <= i < |log| ==> log[i].reply == None)
  }

  /** Every accepted callback has been dispatched or is pending: in order, each once, none lost. */
  ghost predicate Conserved(c: Conn) {
    c.accepted == Callbacks(c.log) + c.pending
  }

  /** What callbacks can change: they register commands and set flags, and while closing not even that. */
  ghost predicate OnlyCalls(c: Conn, d: Conn) {
    && d == c.(disconnecting := d.disconnecting, freeing := d.freeing, pending := d.pending, obuf := d.obuf,
               accepted := d.accepted)
    && (c.disconnecting ==> d.disconnecting) && (c.freeing ==> d.freeing)
    && (c.Closing() ==> d.pending == c.pending && d.accepted == c.accepted)
  }

  lemma CallInsideConserves(c: Conn, call: Call)
    requires Conserved(c)
    ensures Conserved(CallInside(c, call)) && OnlyCalls(c, CallInside(c, call))
  {
    match call
    case Command(cb, _) => assert Callbacks(c.log) + (c.pending + [cb]) == Callbacks(c.log) + c.pending + [cb];
    case _ =>
  }

  lemma {:induction false} CallsInsideConserve(c: Conn, calls: seq<Call>)
    requires Conserved(c)
    ensures Conserved(CallsInside(c, calls)) && OnlyCalls(c, CallsInside(c, calls))
    decreases |calls|
  {
    hide Conserved, CallInside;
    if calls != [] {
      CallInsideConserves(c, calls[0]);
      CallsInsideConserve(CallInside(c, calls[0]), calls[1..]);
    }
  }

  lemma DispatchConserves(c: Conn, reply: Option<Reply>)
    requires Conserved(c) && c.pending != [] && !c.inCallback
    ensures var d := Dispatched(c, reply);
            && Conserved(d) && d.log == c.log + [Dispatch(c.pending[0], reply)]
            && OnlyCalls(c.(pending := c.pending[1..], log := d.log), d)
  {
    hide CallsInside;
    var cb := c.pending[0];
    var shifted := c.(pending := c.pending[1..], log := c.log + [Dispatch(cb, reply)]);
    CallbacksSnoc(c.log, Dispatch(cb, reply));
    assert Callbacks(c.log) + c.pending == Callbacks(c.log) + [cb] + c.pending[1..];
    if cb.hasFn {
      CallsInsideConserve(shifted.(inCallback := true), if reply.Some? then cb.onReply else cb.onNull);
    }
  }

  /**
   A context between two events: the first n of the replies that came in have been given out. Those are all of them,
   unless a callback has freed the context, or there was no command left that they could answer.
   */
  ghost predicate Consistent(c: Conn, all: seq<Reply>, n: nat) {
    && Conserved(c) && !c.inCallback && c.freed <= 1
    && n <= |all| && Answers(c.log, all[..n])
    && (c.Running() ==> n == |all| == |c.log|)
    && (n < |all| ==> c.freeing || n == |c.accepted|)
    && (c.freed == 1 ==> c.pending == [] && c.Closing())
  }

  /** Teardown: each callback that is left runs once with NULL, in order, and nothing is registered meanwhile. */
  lemma {:induction false} DrainRunsPending(c: Conn)
    requires c.Closing() && Conserved(c) && !c.inCallback
    ensures var d := Drain(c);
            && Conserved(d) && d.pending == [] && d.accepted == c.accepted && d.Closing()
            && d.freed == c.freed && d.abort == c.abort && !d.inCallback && (c.freeing ==> d.freeing)
            && |d.log| == |c.log| + |c.pending| && d.log[..|c.log|] == c.log
            && forall i :: 0 <= i < |c.pending| ==> d.log[|c.log| + i] == Dispatch(c.pending[i], None)
    decreases |c.pending|
  {
    hide Conserved, Dispatched;
    if c.pending != [] {
      DispatchConserves(c, None);
      var e := Dispatched(c, None);
      DrainRunsPending(e);
      var d := Drain(c);
      assert c.log <= e.log;
      assert d.log[..|e.log|][..|c.log|] == d.log[..|c.log|];
      forall i | 0 <= i < |c.pending| ensures d.log[|c.log| + i] == Dispatch(c.pending[i], None) {
        if i == 0 {
          assert d.log[|c.log|] == d.log[..|e.log|][|c.log|];
        } else {
          assert c.pending[i] == c.pending[1..][i - 1];
          assert d.log[|e.log| + (i - 1)] == Dispatch(e.pending[i - 1], None);
        }
      }
    }
  }

  lemma TeardownConsistent(c: Conn, all: seq<Reply>, n: nat)
    requires c.Closing() && c.freed == 0 && Conserved(c) && !c.inCallback
    requires n == |c.log| && n <= |all| && Answers(c.log, all[..n])
    requires n < |all| ==> c.freeing || n == |c.accepted|
    ensures Consistent(Teardown(c), all, n)
    ensures !Teardown(c).Running()
  {
    hide Conserved, Drain;
    DrainRunsPending(c);
    var d := Drain(c);
    assert forall i :: 0 <= i < |c.log| ==> d.log[i] == d.log[..|c.log|][i];
    DrainedAfter(c, d);
    TeardownOf(c);
  }

  lemma TeardownOf(c: Conn)
    requires c.Closing()
    ensures Teardown(c) == Drain(c).(freed := Drain(c).freed + 1)
    ensures Conserved(Drain(c)) ==> Conserved(Teardown(c))
  {
    hide Drain;
  }

  lemma DrainedAfter(c: Conn, d: Conn)
    requires |d.log| == |c.log| + |c.pending|
    requires forall i :: 0 <= i < |c.pending| ==> d.log[|c.log| + i] == Dispatch(c.pending[i], None)
    ensures forall i :: |c.log| <= i < |d.log| ==> d.log[i].reply == None
  {
    forall i | |c.log| <= i < |d.log| ensures d.log[i].reply == None {
      assert d.log[|c.log| + (i - |c.log|)] == Dispatch(c.pending[i - |c.log|], None);
    }
  }

  lemma ShutdownConsistent(c: Conn, all: seq<Reply>, n: nat)
    requires (c.Closing() || c.err) && c.Running() && Conserved(c) && !c.inCallback
    requires n == |c.log| && n <= |all| && Answers(c.log, all[..n])
    requires n < |all| ==> c.freeing || n == |c.accepted|
    ensures Consistent(Shutdown(c), all, n) && !Shutdown(c).Running()
  {
    hide Teardown;
    if c.err {
      TeardownConsistent(c.(disconnecting := true), all, n);
    } else if c.pending == [] {
      TeardownConsistent(c, all, n);
    }
  }

  lemma AnswersSnoc(log: seq<Dispatch>, rs: seq<Reply>, d: Dispatch, r: Reply)
    requires Answers(log, rs) && |rs| == |log| && d.reply == Some(r)
    ensures Answers(log + [d], rs + [r])
  {
  }

  lemma AllDispatched(c: Conn)
    requires Conserved(c) && c.pending == []
    ensures |c.accepted| == |c.log|
  {
    CallbacksAt(c.log);
  }

  lemma {:induction false} ConsumeConsistent(c: Conn, replies: seq<Reply>, before: seq<Reply>) returns (n: nat)
    requires c.Running() && Consistent(c, before, |before|)
    ensures Consistent(Consume(c, replies), before + replies, n)
    decreases |replies|
  {
    hide Conserved, Answers, Dispatched, Teardown, Shutdown;
    n := |before|;
    assert before[..n] == before && (before + replies)[..n] == before;
    if replies == [] {
      assert before + replies == before;
    } else if c.pending == [] {
      AllDispatched(c);
      if replies[0].Error? {
        SameConn(c, c.(err := true));
        ShutdownConsistent(c.(err := true), before + replies, n);
      } else {
        SameConn(c, c.(abort := ReplyWithoutCommand));
      }
    } else {
      var r := replies[0];
      var d := Dispatched(c, Some(r));
      DispatchConserves(c, Some(r));
      AnswersSnoc(c.log, before, Dispatch(c.pending[0], Some(r)), r);
      assert (before + replies)[..n + 1] == before + [r] && (before + [r])[..n + 1] == before + [r];
      if c.pending[0].hasFn && d.freeing {
        n := n + 1;
        TeardownConsistent(d, before + replies, n);
      } else {
        assert before + [r] + replies[1..] == before + replies;
        n := ConsumeConsistent(d, replies[1..], before + [r]);
      }
    }
  }

  /** Conservation does not depend on the flags. */
  lemma SameConn(c: Conn, d: Conn)
    requires Conserved(c) && d.accepted == c.accepted && d.log == c.log && d.pending == c.pending
    ensures Conserved(d)
  {
  }

  lemma ProcessConsistent(c: Conn, replies: seq<Reply>, ok: bool, before: seq<Reply>) returns (n: nat)
    requires c.Running() && Consistent(c, before, |before|)
    ensures Consistent(Process(c, replies, ok), before + replies, n)
  {
    hide Conserved, Answers, Shutdown, Consume;
    n := ConsumeConsistent(c, replies, before);
    var d := Consume(c, replies);
    if d.Running() {
      if !ok {
        SameConn(d, d.(err := true));
        ShutdownConsistent(d.(err := true), before + replies, n);
      } else if d.disconnecting && d.obuf == 0 {
        ShutdownConsistent(d, before + replies, n);
      }
    }
  }

  /** The event makes a working connection process the replies that have come in. */
  predicate Processes(c: Conn, e: Event) {
    e.Readable? && !e.failed && !c.err && (c.connected || e.handshake.Connected?)
  }

  /** The replies that an event brings into a context that can take them. */
  function Arriving(c: Conn, e: Event): seq<Reply> {
    if c.Running() && Processes(c, e) then e.replies else []
  }

  function Arrivals(c: Conn, events: seq<Event>): seq<Reply>
    decreases |events|
  {
    if events == [] then [] else Arriving(c, events[0]) + Arrivals(Next(c, events[0]), events[1..])
  }

  lemma HandshakenConsistent(c: Conn, h: Handshake, before: seq<Reply>)
    requires c.Running() && Consistent(c, before, |before|)
    ensures Consistent(Handshaken(c, h), before, |before|)
    ensures !Handshaken(c, h).Running() ==> !c.connected && h.Refused?
    ensures Handshaken(c, h).Running() ==>
              && Handshaken(c, h).connected == (c.connected || h.Connected?)
              && (Handshaken(c, h).connected ==> Handshaken(c, h).err == c.err)
  {
    hide Conserved, Answers, Shutdown;
    assert before[..|before|] == before;
    if !c.connected && h.Refused? {
      SameConn(c, c.(err := true));
      ShutdownConsistent(c.(err := true), before, |before|);
    } else if !c.connected {
      SameConn(c, Handshaken(c, h));
    }
  }

  lemma CallOutsideConsistent(c: Conn, call: Call, before: seq<Reply>)
    requires c.Running() && Consistent(c, before, |before|)
    ensures Consistent(CallOutside(c, call), before, |before|)
  {
    hide Answers, Shutdown, Teardown;
    assert before[..|before|] == before;
    match call
    case Command(cb, size) =>
      assert Callbacks(c.log) + (c.pending + [cb]) == Callbacks(c.log) + c.pending + [cb];
    case Disconnect =>
      if c.pending == [] {
        ShutdownConsistent(c.(disconnecting := true), before, |before|);
      }
    case Free =>
      TeardownConsistent(c.(freeing := true), before, |before|);
  }

  lemma NextConsistent(c: Conn, e: Event, before: seq<Reply>) returns (n: nat)
    requires c.Running() && Consistent(c, before, |before|)
    ensures Consistent(Next(c, e), before + Arriving(c, e), n)
  {
    hide Conserved, Answers, Shutdown, Process, CallOutside, Handshaken;
    n := |before|;
    assert before + [] == before && before[..n] == before;
    match e
    case Client(call) => CallOutsideConsistent(c, call, before);
    case Readable(h, failed, replies, ok) =>
      HandshakenConsistent(c, h, before);
      var d := Handshaken(c, h);
      if d.Running() && d.connected {
        if failed || d.err {
          SameConn(d, d.(err := true));
          ShutdownConsistent(d.(err := true), before, n);
        } else {
          n := ProcessConsistent(d, replies, ok, before);
        }
      } else {
        assert Arriving(c, e) == [];
      }
    case Writable(h, failed, written) =>
      HandshakenConsistent(c, h, before);
      var d := Handshaken(c, h);
      if d.Running() && d.connected {
        if failed || d.err {
          SameConn(d, d.(err := true));
          ShutdownConsistent(d.(err := true), before, n);
        } else {
          SameConn(d, HandleWrite(c, h, failed, written));
        }
      }
  }

  lemma NothingYet()
    ensures Consistent(INITIAL, [], 0)
  {
  }

  lemma {:induction false} EventsConsistent(c: Conn, events: seq<Event>, before: seq<Reply>, n0: nat) returns (n: nat)
    requires Consistent(c, before, n0)
    ensures Consistent(RunEvents(c, events), before + Arrivals(c, events), n)
    decreases |events|
  {
    hide Consistent, Next, Arriving;
    n := n0;
    if events == [] {
      assert before + [] == before;
    } else {
      var e, before' := events[0], before + Arriving(c, events[0]);
      assert before + Arrivals(c, events) == before' + Arrivals(Next(c, e), events[1..]);
      if c.Running() {
        n := RunningConsistent(c, before, n0, e);
      } else {
        StoppedConsistent(c, before, n0, e);
      }
      n := EventsConsistent(Next(c, e), events[1..], before', n);
    }
  }

  lemma RunningConsistent(c: Conn, before: seq<Reply>, n0: nat, e: Event) returns (n: nat)
    requires Consistent(c, before, n0) && c.Running()
    ensures Consistent(Next(c, e), before + Arriving(c, e), n)
  {
    n := NextConsistent(c, e, before);
  }

  lemma StoppedConsistent(c: Conn, before: seq<Reply>, n0: nat, e: Event)
    requires Consistent(c, before, n0) && !c.Running()
    ensures Next(c, e) == c && Consistent(c, before + Arriving(c, e), n0)
  {
    assert before + [] == before;
  }

  /**
   Exactly-once delivery in order, over every run. The i-th callback to leave the list is that of the i-th accepted
   command; as long as the context runs, the i-th of them got the i-th reply, and every reply that came in was
   given to one. When the context has been freed, once, every accepted callback has left the list: those that had
   no reply yet got NULL, in order. A reply that came in is given to none only after a callback has freed the
   context, or when every accepted command has had its reply.
   */
  lemma ExactlyOnce(events: seq<Event>)
    returns (n: nat)
    ensures var c, all := RunEvents(INITIAL, events), Arrivals(INITIAL, events);
            && n <= |all| && n <= |c.log|
            && |c.log| + |c.pending| == |c.accepted|
            && (forall i :: 0 <= i < |c.log| ==> c.log[i].cb == c.accepted[i])
            && (forall i :: 0 <= i < |c.pending| ==> c.pending[i] == c.accepted[|c.log| + i])
            && (forall i :: 0 <= i < |c.log| ==> c.log[i].reply == if i < n then Some(all[i]) else None)
            && (c.Running() ==> n == |all| == |c.log|)
            && (n < |all| ==> c.freeing || n == |c.accepted|)
            && c.freed <= 1 && (c.freed == 1 ==> c.pending == [] && c.Closing())
  {
    hide RunEvents, Arrivals, Answers, Callbacks;
    NothingYet();
    n := EventsConsistent(INITIAL, events, [], 0);
    var c, all := RunEvents(INITIAL, events), Arrivals(INITIAL, events);
    assert [] + all == all;
    CallbacksAt(c.log);
    AnswersAt(c.log, all, n);
  }

  lemma AnswersAt(log: seq<Dispatch>, all: seq<Reply>, n: nat)
    requires n <= |all| && Answers(log, all[..n])
    ensures n <= |log| && forall i :: 0 <= i < |log| ==> log[i].reply == if i < n then Some(all[i]) else None
  {
  }

  // ------------------------------------------------------------- when it aborts

  /** The calls that these callbacks make when each is run with a reply. */
  function CallsOf(cbs: seq<Callback>): seq<Call> {
    if cbs == [] then [] else (if cbs[0].hasFn then cbs[0].onReply else []) + CallsOf(cbs[1..])
  }

  /** The callbacks that a list of calls registers: those of the commands before the first call that closes. */
  function NewCallbacks(closing: bool, calls: seq<Call>): seq<Callback> {
    if closing || calls == [] || !calls[0].Command? then [] else [calls[0].cb] + NewCallbacks(false, calls[1..])
  }

  function NewBytes(closing: bool, calls: seq<Call>): nat {
    if closing || calls == [] || !calls[0].Command? then 0 else calls[0].size + NewBytes(false, calls[1..])
  }

  predicate Closes(calls: seq<Call>) { Disconnect in calls || Free in calls }

  lemma {:induction false} NewOfBoth(closing: bool, a: seq<Call>, b: seq<Call>)
    ensures NewCallbacks(closing, a + b) == NewCallbacks(closing, a) + NewCallbacks(closing || Closes(a), b)
    ensures NewBytes(closing, a + b) == NewBytes(closing, a) + NewBytes(closing || Closes(a), b)
    decreases |a|
  {
    if a == [] {
      assert a + b == b;
    } else if !closing && a[0].Command? {
      assert (a + b)[1..] == a[1..] + b;
      assert Closes(a) <==> Closes(a[1..]);
      NewOfBoth(false, a[1..], b);
    }
  }

  lemma InFirstOrRest(calls: seq<Call>, call: Call)
    requires calls != []
    ensures call in calls <==> call == calls[0] || call in calls[1..]
  {
    assert calls == [calls[0]] + calls[1..];
  }

  /** What the calls of a callback come to: all at once. */
  function AfterCalls(c: Conn, calls: seq<Call>): Conn {
    var cbs := NewCallbacks(c.Closing(), calls);
    c.(disconnecting := c.disconnecting || Disconnect in calls, freeing := c.freeing || Free in calls,
       pending := c.pending + cbs, obuf := c.obuf + NewBytes(c.Closing(), calls), accepted := c.accepted + cbs)
  }

  lemma AfterNoCalls(c: Conn)
    ensures AfterCalls(c, []) == c
  {
    assert c.pending + [] == c.pending && c.accepted + [] == c.accepted;
  }

  lemma AfterCommand(c: Conn, calls: seq<Call>)
    requires calls != [] && calls[0].Command? && !c.Closing()
    ensures AfterCalls(c, calls) == AfterCalls(Submit(c, calls[0].cb, calls[0].size), calls[1..])
  {
    InFirstOrRest(calls, Disconnect);
    InFirstOrRest(calls, Free);
    RegroupCallbacks(c.pending, [calls[0].cb], NewCallbacks(false, calls[1..]));
    RegroupCallbacks(c.accepted, [calls[0].cb], NewCallbacks(false, calls[1..]));
  }

  lemma AfterOther(c: Conn, calls: seq<Call>)
    requires calls != [] && (!calls[0].Command? || c.Closing())
    ensures AfterCalls(c, calls) == AfterCalls(CallInside(c, calls[0]), calls[1..])
  {
    InFirstOrRest(calls, Disconnect);
    InFirstOrRest(calls, Free);
  }

  lemma {:induction false} CallsInsideExactly(c: Conn, calls: seq<Call>)
    ensures CallsInside(c, calls) == AfterCalls(c, calls)
    decreases |calls|
  {
    hide Submit, AfterCalls;
    if calls == [] {
      AfterNoCalls(c);
    } else {
      CallsInsideExactly(CallInside(c, calls[0]), calls[1..]);
      if calls[0].Command? && !c.Closing() {
        AfterCommand(c, calls);
      } else {
        AfterOther(c, calls);
      }
    }
  }

  lemma DispatchedExactly(c: Conn, r: Reply)
    requires c.pending != [] && !c.inCallback
    ensures var calls := CallsOf(c.pending[..1]);
            var d := Dispatched(c, Some(r));
            && d.disconnecting == (c.disconnecting || Disconnect in calls) && d.freeing == (c.freeing || Free in calls)
            && d.pending == c.pending[1..] + NewCallbacks(c.Closing(), calls)
            && d.obuf == c.obuf + NewBytes(c.Closing(), calls)
            && d.err == c.err && d.freed == c.freed && d.abort == c.abort && !d.inCallback
            && (d.freeing && !c.freeing ==> c.pending[0].hasFn)
  {
    hide CallsInside;
    var cb := c.pending[0];
    var shifted := c.(pending := c.pending[1..], log := c.log + [Dispatch(cb, Some(r))]);
    FirstCalls(c.pending);
    if cb.hasFn {
      CallsInsideExactly(shifted.(inCallback := true), cb.onReply);
    } else {
      assert c.pending[1..] + [] == c.pending[1..];
    }
  }

  lemma DispatchKeeps(c: Conn, reply: Option<Reply>)
    requires c.pending != []
    ensures var d := Dispatched(c, reply);
            d.freed == c.freed && d.abort == c.abort && d.err == c.err && (!c.inCallback ==> !d.inCallback)
  {
    hide CallsInside, NewCallbacks, NewBytes;
    var cb := c.pending[0];
    CallsInsideExactly(c.(pending := c.pending[1..], log := c.log + [Dispatch(cb, reply)], inCallback := true),
                       if reply.Some? then cb.onReply else cb.onNull);
  }

  lemma FirstCalls(cbs: seq<Callback>)
    requires cbs != []
    ensures CallsOf(cbs[..1]) == if cbs[0].hasFn then cbs[0].onReply else []
    ensures forall k :: 0 < k <= |cbs| ==> CallsOf(cbs[..k]) == CallsOf(cbs[..1]) + CallsOf(cbs[1..][..k - 1])
  {
    forall k | 0 < k <= |cbs|
      ensures CallsOf(cbs[..k]) == (if cbs[0].hasFn then cbs[0].onReply else []) + CallsOf(cbs[1..][..k - 1])
    {
      assert cbs[..k][1..] == cbs[1..][..k - 1];
    }
    assert cbs[1..][..0] == [];
  }

  lemma {:induction false} DrainAlive(c: Conn)
    requires c.Closing()
    ensures Drain(c).abort == c.abort && Drain(c).freed == c.freed
    decreases |c.pending|
  {
    hide CallsInside;
    if c.pending != [] {
      DispatchKeeps(c, None);
      DrainAlive(Dispatched(c, None));
    }
  }

  /**
   What the loop over the replies comes to, told from the callbacks that wait before it: it ends in a teardown if
   one of those that get a reply frees the context, and otherwise leaves the others and the newly registered ones.
   */
  lemma {:induction false} ConsumeExactly(c: Conn, replies: seq<Reply>)
    requires c.Running() && !c.freeing && !c.inCallback && |replies| <= |c.pending|
    ensures var d, calls := Consume(c, replies), CallsOf(c.pending[..|replies|]);
            if Free in calls then d.freed == 1 && d.pending == [] && d.abort.Alive?
            else
              && d.Running() && !d.freeing && d.err == c.err
              && d.disconnecting == (c.disconnecting || Disconnect in calls)
              && d.pending == c.pending[|replies|..] + NewCallbacks(c.disconnecting, calls)
              && d.obuf == c.obuf + NewBytes(c.disconnecting, calls)
    decreases |replies|
  {
    hide Dispatched, Drain, CallsOf, NewCallbacks, NewBytes;
    if replies == [] {
      NoCalls(c.disconnecting, c.pending);
    } else {
      var k, d := |replies|, Dispatched(c, Some(replies[0]));
      DispatchedExactly(c, replies[0]);
      FirstCalls(c.pending);
      var now, later := CallsOf(c.pending[..1]), CallsOf(c.pending[1..][..k - 1]);
      assert CallsOf(c.pending[..k]) == now + later;
      if Free in now {
        DrainAlive(d);
      } else {
        assert d.pending[..k - 1] == c.pending[1..][..k - 1];
        assert d.pending[k - 1..] == c.pending[k..] + NewCallbacks(c.disconnecting, now);
        ConsumeExactly(d, replies[1..]);
        NewOfBoth(c.disconnecting, now, later);
        RegroupCallbacks(c.pending[k..], NewCallbacks(c.disconnecting, now), NewCallbacks(d.disconnecting, later));
      }
    }
  }

  lemma NoCalls(closing: bool, cbs: seq<Callback>)
    ensures CallsOf(cbs[..0]) == [] && NewCallbacks(closing, []) == [] && NewBytes(closing, []) == 0
    ensures cbs[0..] + [] == cbs
  {
  }

  lemma RegroupCallbacks(x: seq<Callback>, y: seq<Callback>, z: seq<Callback>)
    ensures x + (y + z) == x + y + z
  {
  }

  lemma {:induction false} ConsumeBoth(c: Conn, a: seq<Reply>, b: seq<Reply>)
    ensures Consume(c, a + b) == Consume(Consume(c, a), b)
    decreases |a|
  {
    hide Dispatched, Drain;
    if a == [] {
      assert a + b == b;
    } else {
      assert (a + b)[0] == a[0] && (a + b)[1..] == a[1..] + b;
      if c.Running() && c.pending != [] {
        var d := Dispatched(c, Some(a[0]));
        DispatchKeeps(c, Some(a[0]));
        if c.pending[0].hasFn && d.freeing {
          DrainAlive(d);
        } else {
          ConsumeBoth(d, a[1..], b);
        }
      } else if c.Running() {
        DrainAlive(c.(err := true, disconnecting := true));
      }
    }
  }

  /**
   What an event comes to: the context goes on, with these callbacks waiting, disconnecting or not and with so much to
   write; it is gone, its waiting callbacks run; or an assertion fails.
   */
  datatype End = Continues(pending: seq<Callback>, disconnecting: bool, obuf: nat) | Freed | Aborts(which: Abort)

  ghost predicate EndsAs(d: Conn, end: End) {
    match end
    case Continues(pending, disconnecting, obuf) =>
      && d.Running() && !d.freeing && !d.inCallback
      && d.pending == pending && d.disconnecting == disconnecting && d.obuf == obuf
    case Freed => d.freed == 1 && d.pending == [] && d.abort.Alive?
    case Aborts(a) => !d.Running() && d.freed == 0 && d.abort == a
  }

  /** After the last reply: an error of the reader, or the cue to disconnect cleanly. */
  function Settled(pending: seq<Callback>, closing: bool, obuf: nat, ok: bool): End {
    if !ok then Freed
    else if !closing || obuf > 0 then Continues(pending, closing, obuf)
    else if pending == [] then Freed
    else Aborts(PendingAtCleanDisconnect)
  }

  /**
   What replies come to, told from what a caller knows before the event: the waiting callbacks, whether the context
   is disconnecting, and how much there is to write. Replies beyond the waiting callbacks go to those that these
   register, and so on. One that finds nobody ends the connection if it is an error, and fails an assertion otherwise.
   */
  function Fate(queue: seq<Callback>, closing: bool, obuf: nat, replies: seq<Reply>, ok: bool): End
    decreases |replies|
  {
    if queue == [] && replies != [] then
      if replies[0].Error? then Freed else Aborts(ReplyWithoutCommand)
    else
      var n := if |replies| < |queue| then |replies| else |queue|;
      var calls := CallsOf(queue[..n]);
      var waiting, closing' := queue[n..] + NewCallbacks(closing, calls), closing || Disconnect in calls;
      if Free in calls then Freed
      else if n == |replies| then Settled(waiting, closing', obuf + NewBytes(closing, calls), ok)
      else Fate(waiting, closing', obuf + NewBytes(closing, calls), replies[n..], ok)
  }

  lemma {:induction false} ProcessFate(c: Conn, replies: seq<Reply>, ok: bool)
    requires c.Running() && Between(c) && !c.err
    ensures EndsAs(Process(c, replies, ok), Fate(c.pending, c.disconnecting, c.obuf, replies, ok))
    decreases |replies|
  {
    hide Consume, Drain, CallsOf, NewCallbacks, NewBytes;
    var k := |c.pending|;
    if |replies| <= k {
      FateOfFew(c, replies, ok);
    } else if k == 0 {
      FateOfSpontaneous(c, replies, ok);
    } else {
      var now, later := replies[..k], replies[k..];
      assert replies == now + later;
      ConsumeBoth(c, now, later);
      ConsumeExactly(c, now);
      ConsumeBetween(c, now);
      assert c.pending[..k] == c.pending && c.pending[k..] == [];
      var d := Consume(c, now);
      ConsumeStopped(d, later);
      var calls := CallsOf(c.pending);
      if Free !in calls {
        assert d.pending == [] + NewCallbacks(c.disconnecting, calls);
        ProcessFate(d, later, ok);
        assert Process(c, replies, ok) == Process(d, later, ok);
      }
    }
  }

  lemma ConsumeStopped(c: Conn, replies: seq<Reply>)
    ensures !c.Running() ==> Consume(c, replies) == c
  {
  }

  lemma FateOfFew(c: Conn, replies: seq<Reply>, ok: bool)
    requires c.Running() && Between(c) && !c.err && |replies| <= |c.pending|
    ensures EndsAs(Process(c, replies, ok), Fate(c.pending, c.disconnecting, c.obuf, replies, ok))
  {
    hide Consume, Drain, CallsOf, NewCallbacks, NewBytes;
    ConsumeExactly(c, replies);
    ConsumeBetween(c, replies);
    var d := Consume(c, replies);
    if d.Running() && (!ok || (d.disconnecting && d.obuf == 0 && d.pending == [])) {
      DrainAlive(if ok then d else d.(err := true, disconnecting := true));
    }
  }

  lemma FateOfSpontaneous(c: Conn, replies: seq<Reply>, ok: bool)
    requires c.Running() && !c.err && c.pending == [] && replies != []
    ensures EndsAs(Process(c, replies, ok), Fate(c.pending, c.disconnecting, c.obuf, replies, ok))
  {
    hide Drain;
    DrainAlive(c.(err := true, disconnecting := true));
  }

  /** A context that disconnects already registers nothing more: only the replies and the callbacks count. */
  lemma DisconnectingEnds(queue: seq<Callback>, obuf: nat, replies: seq<Reply>, ok: bool)
    ensures var n := if |replies| < |queue| then |replies| else |queue|;
            Fate(queue, true, obuf, replies, ok) ==
              if exists i :: 0 <= i < n && queue[i].hasFn && Free in queue[i].onReply then Freed
              else if |replies| <= |queue| then Settled(queue[n..], true, obuf, ok)
              else if replies[n].Error? then Freed
              else Aborts(ReplyWithoutCommand)
  {
    hide CallsOf;
    var n := if |replies| < |queue| then |replies| else |queue|;
    assert queue[..|queue|] == queue;
    InCallsOf(queue[..n], Free);
  }

  lemma {:induction false} InCallsOf(cbs: seq<Callback>, call: Call)
    ensures call in CallsOf(cbs) <==> exists i :: 0 <= i < |cbs| && cbs[i].hasFn && call in cbs[i].onReply
    decreases |cbs|
  {
    if cbs != [] {
      InCallsOf(cbs[1..], call);
      forall i | 0 <= i < |cbs| ensures i > 0 ==> cbs[i] == cbs[1..][i - 1] {}
      forall i | 0 <= i < |cbs| - 1 ensures cbs[1..][i] == cbs[i + 1] {}
    }
  }

  /** Between two events no callback is running, and no freeing is waiting to be done. */
  predicate Between(c: Conn) {
    c.Running() ==> !c.freeing && !c.inCallback
  }

  lemma ConsumeBetween(c: Conn, replies: seq<Reply>)
    requires c.Running() && !c.freeing && !c.inCallback
    ensures Between(Consume(c, replies))
    decreases |replies|
  {
    hide Dispatched, Drain;
    if replies != [] && c.pending != [] {
      DispatchedExactly(c, replies[0]);
      var d := Dispatched(c, Some(replies[0]));
      if !d.freeing {
        ConsumeBetween(d, replies[1..]);
      }
    }
  }

  lemma NextBetween(c: Conn, e: Event)
    requires Between(c)
    ensures Between(Next(c, e))
  {
    hide Consume, Drain;
    if c.Running() && e.Readable? {
      var d := Handshaken(c, e.handshake);
      if d.Running() && d.connected && !d.err && !e.failed {
        ConsumeBetween(d, e.replies);
      }
    }
  }

  lemma {:induction false} RunsStayBetween(c: Conn, events: seq<Event>)
    requires Between(c)
    ensures Between(RunEvents(c, events))
    decreases |events|
  {
    hide Between, Next;
    if events != [] {
      NextBetween(c, events[0]);
      RunsStayBetween(Next(c, events[0]), events[1..]);
    }
  }

  function EndOfCall(c: Conn, call: Call): End {
    match call
    case Command(cb, size) =>
      if c.disconnecting then Continues(c.pending, true, c.obuf) else Continues(c.pending + [cb], false, c.obuf + size)
    case Disconnect => if c.pending == [] then Freed else Continues(c.pending, true, c.obuf)
    case Free => Freed
  }

  /** An event that finds the context not connected, and does not make it so. */
  function EndOfCheck(c: Conn, h: Handshake): End {
    if h.Refused? then Freed else Continues(c.pending, c.disconnecting, c.obuf)
  }

  /** What any event comes to, for a context that is still there. */
  function EndOf(c: Conn, e: Event): End {
    match e
    case Client(call) => EndOfCall(c, call)
    case Readable(h, failed, replies, ok) =>
      if !c.connected && !h.Connected? then EndOfCheck(c, h)
      else if failed || c.err then Freed
      else Fate(c.pending, c.disconnecting, c.obuf, replies, ok)
    case Writable(h, failed, written) =>
      if !c.connected && !h.Connected? then EndOfCheck(c, h)
      else if failed || c.err then Freed
      else Continues(c.pending, c.disconnecting, if written >= c.obuf then 0 else c.obuf - written)
  }

  /**
   In any run and for any event, when the context goes on and how, when it is freed, and when the program aborts. It
   is freed by a call of the client, a refused connection, a failed read or write, an error of the reader, a callback
   that frees it, the last reply of one that disconnects, and an error reply that nobody waits for.
   */
  lemma EndsExactly(events: seq<Event>, e: Event)
    requires RunEvents(INITIAL, events).Running()
    ensures var c := RunEvents(INITIAL, events);
            EndsAs(Next(c, e), EndOf(c, e))
  {
    hide RunEvents, EndsAs, EndOf;
    RunsStayBetween(INITIAL, events);
    NextEnds(RunEvents(INITIAL, events), e);
  }

  lemma NextEnds(c: Conn, e: Event)
    requires c.Running() && Between(c)
    ensures EndsAs(Next(c, e), EndOf(c, e))
  {
    hide HandleRead, HandleWrite, CallOutside, EndsAs, Fate;
    match e
    case Client(call) => CallEnds(c, call);
    case Readable(_, _, _, _) => ReadEnds(c, e);
    case Writable(_, _, _) => WriteEnds(c, e);
  }

  lemma CallEnds(c: Conn, call: Call)
    requires c.Running() && Between(c)
    ensures EndsAs(CallOutside(c, call), EndOfCall(c, call))
  {
    hide Drain;
    ShutdownFrees(c.(disconnecting := true));
    ShutdownFrees(c.(freeing := true));
  }

  lemma ReadEnds(c: Conn, e: Event)
    requires c.Running() && Between(c) && e.Readable?
    ensures EndsAs(HandleRead(c, e.handshake, e.failed, e.replies, e.ok), EndOf(c, e))
  {
    hide Process, Shutdown, Fate;
    var d := Handshaken(c, e.handshake);
    ShutdownFrees(c.(err := true));
    ShutdownFrees(d.(err := true));
    if Processes(c, e) {
      ProcessFate(d, e.replies, e.ok);
    }
  }

  lemma WriteEnds(c: Conn, e: Event)
    requires c.Running() && Between(c) && e.Writable?
    ensures EndsAs(HandleWrite(c, e.handshake, e.failed, e.written), EndOf(c, e))
  {
    hide Shutdown;
    ShutdownFrees(c.(err := true));
    ShutdownFrees(Handshaken(c, e.handshake).(err := true));
  }

  lemma ShutdownFrees(c: Conn)
    ensures c.err ==> Shutdown(c).abort == c.abort && Shutdown(c).freed == c.freed + 1 && Shutdown(c).pending == []
    ensures c.Closing() ==>
              Teardown(c).abort == c.abort && Teardown(c).freed == c.freed + 1 && Teardown(c).pending == []
  {
    hide Drain;
    if c.err {
      DrainAlive(c.(disconnecting := true));
    }
    if c.Closing() {
      DrainAlive(c);
    }
  }

  /** When the program aborts: only when the context processes replies, and then as these end. */
  lemma AbortsExactly(events: seq<Event>, e: Event)
    requires RunEvents(INITIAL, events).Running()
    ensures var c := RunEvents(INITIAL, events);
            && (!Processes(c, e) ==> Next(c, e).abort == Alive)
            && (Processes(c, e) ==>
                  var end := Fate(c.pending, c.disconnecting, c.obuf, e.replies, e.ok);
                  Next(c, e).abort == if end.Aborts? then end.which else Alive)
  {
    hide RunEvents, Fate;
    EndsExactly(events, e);
  }

  /** Callbacks that are given NULL. */
  function Unanswered(cbs: seq<Callback>): seq<Dispatch> {
    seq(|cbs|, i requires 0 <= i < |cbs| => Dispatch(cbs[i], None))
  }

  lemma TeardownGivesNull(c: Conn)
    requires c.Closing() && Conserved(c) && !c.inCallback
    ensures Teardown(c).log == c.log + Unanswered(c.pending)
  {
    hide Drain, Conserved;
    DrainRunsPending(c);
    var d, all := Drain(c), c.log + Unanswered(c.pending);
    forall i | 0 <= i < |d.log| ensures d.log[i] == all[i] {
      if i < |c.log| {
        assert d.log[i] == d.log[..|c.log|][i];
      } else {
        assert d.log[|c.log| + (i - |c.log|)] == Dispatch(c.pending[i - |c.log|], None);
      }
    }
  }

  lemma ShutdownGivesNull(c: Conn)
    requires c.err && Conserved(c) && !c.inCallback
    ensures Shutdown(c).log == c.log + Unanswered(c.pending)
  {
    hide Drain, Conserved;
    SameConn(c, c.(disconnecting := true));
    TeardownGivesNull(c.(disconnecting := true));
  }

  /**
   An event that brings no replies gives none out: it runs no callback, or it frees the context and each of the
   waiting callbacks is given NULL, in order.
   */
  lemma WithoutReplies(events: seq<Event>, e: Event)
    requires RunEvents(INITIAL, events).Running() && !Processes(RunEvents(INITIAL, events), e)
    ensures var c := RunEvents(INITIAL, events);
            Next(c, e).log == c.log + if EndOf(c, e).Freed? then Unanswered(c.pending) else []
  {
    hide Processes, RunEvents, Next, EndOf, Arrivals, Answers, Conserved;
    RunsStayBetween(INITIAL, events);
    NothingYet();
    var n := EventsConsistent(INITIAL, events, [], 0);
    NextWithoutReplies(RunEvents(INITIAL, events), e);
  }

  lemma NextWithoutReplies(c: Conn, e: Event)
    requires c.Running() && Between(c) && Conserved(c) && !Processes(c, e)
    ensures Next(c, e).log == c.log + if EndOf(c, e).Freed? then Unanswered(c.pending) else []
  {
    hide Drain, Shutdown, Teardown, Conserved, Process, Fate;
    SameConn(c, c.(err := true));
    SameConn(c, c.(connected := true));
    SameConn(c, c.(disconnecting := true));
    SameConn(c, c.(freeing := true));
    ShutdownGivesNull(c.(err := true));
    ShutdownFrees(c.(err := true));
    assert c.log + [] == c.log;
    match e
    case Client(call) =>
      if call.Free? {
        TeardownGivesNull(c.(freeing := true));
      } else if call.Disconnect? && c.pending == [] {
        DisconnectIdle(c);
      }
    case _ =>
      var d := Handshaken(c, e.handshake);
      if c.connected || e.handshake.Connected? {
        SameConn(c, d);
        SameConn(d, d.(err := true));
        ShutdownGivesNull(d.(err := true));
      }
  }

  lemma DisconnectIdle(c: Conn)
    requires c.pending == [] && Conserved(c) && !c.inCallback
    ensures Shutdown(c.(disconnecting := true)).log == c.log + Unanswered([])
  {
    hide Conserved;
    assert c.log + Unanswered([]) == c.log;
  }

  /** Whether the context is connected, and whether an error was left in it, when it goes on. */
  lemma FlagsAfter(events: seq<Event>, e: Event)
    requires RunEvents(INITIAL, events).Running() && Next(RunEvents(INITIAL, events), e).Running()
    ensures var c := RunEvents(INITIAL, events);
            var d, checks := Next(c, e), !e.Client? && !c.connected;
            && (d.connected <==> c.connected || (checks && e.handshake.Connected?))
            && (d.err <==> c.err || (checks && e.handshake.InProgress?))
  {
    hide RunEvents, Fate;
    RunsStayBetween(INITIAL, events);
    NextFlags(RunEvents(INITIAL, events), e);
  }

  lemma NextFlags(c: Conn, e: Event)
    requires c.Running() && Between(c) && Next(c, e).Running()
    ensures var d, checks := Next(c, e), !e.Client? && !c.connected;
            && (d.connected <==> c.connected || (checks && e.handshake.Connected?))
            && (d.err <==> c.err || (checks && e.handshake.InProgress?))
  {
    hide Drain, Consume;
    NextEnds(c, e);
    ShutdownFrees(c.(err := true));
    match e
    case Readable(h, failed, replies, ok) =>
      var d := Handshaken(c, h);
      ShutdownFrees(d.(err := true));
      if Processes(c, e) {
        ConsumeFlags(d, replies);
        var f := Consume(d, replies);
        ShutdownFrees(f.(err := true));
      }
    case Writable(h, failed, written) =>
      ShutdownFrees(Handshaken(c, h).(err := true));
    case _ =>
  }

  lemma {:induction false} ConsumeFlags(c: Conn, replies: seq<Reply>)
    requires c.Running()
    ensures var d := Consume(c, replies);
            d.Running() ==> d.connected == c.connected && d.err == c.err
    decreases |replies|
  {
    hide Drain, CallsInside, NewCallbacks, NewBytes;
    if replies != [] {
      if c.pending == [] {
        ShutdownFrees(c.(err := true));
      } else {
        var cb, d := c.pending[0], Dispatched(c, Some(replies[0]));
        CallsInsideExactly(c.(pending := c.pending[1..], log := c.log + [Dispatch(cb, Some(replies[0]))],
                              inCallback := true), cb.onReply);
        if cb.hasFn && d.freeing {
          ShutdownFrees(d);
        } else {
          ConsumeFlags(d, replies[1..]);
        }
      }
    }
  }

  /** A client that sends one command, disconnects cleanly, and is woken before the reply is complete. */
  lemma WaitingDisconnectAborts(cb: Callback)
    ensures RunEvents(INITIAL, [
              Client(Command(cb, 10)), Writable(Connected, false, 10), Client(Disconnect),
              Readable(Connected, false, [], true)]).abort == PendingAtCleanDisconnect
  {
    hide Drain;
    var a, b := Client(Command(cb, 10)), Writable(Connected, false, 10);
    var d, e := Client(Disconnect), Readable(Connected, false, [], true);
    var c1 := Next(INITIAL, a);
    assert c1.pending == [cb] && c1.obuf == 10;
    var c2 := Next(c1, b);
    var c3 := Next(c2, d);
    var c4 := Next(c3, e);
    assert c4.abort == PendingAtCleanDisconnect;
    RunFour(INITIAL, a, b, d, e);
  }

  lemma RunFour(c: Conn, a: Event, b: Event, d: Event, e: Event)
    ensures RunEvents(c, [a, b, d, e]) == Next(Next(Next(Next(c, a), b), d), e)
  {
    hide Next;
    assert [a, b, d, e][1..] == [b, d, e] && [b, d, e][1..] == [d, e] && [d, e][1..] == [e] && [e][1..] == [];
    var c1, c2, c3 := Next(c, a), Next(Next(c, a), b), Next(Next(Next(c, a), b), d);
    assert RunEvents(c, [a, b, d, e]) == RunEvents(c1, [b, d, e]) == RunEvents(c2, [d, e]) == RunEvents(c3, [e]);
    assert RunEvents(c3, [e]) == RunEvents(Next(c3, e), []) == Next(c3, e);
  }
}
