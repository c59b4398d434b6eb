/** The output side of a connection (hiredis.c): commands are queued in a buffer and written out piecemeal. */
module Connection {
  import opened Bytes
  import opened Resp
  import opened SdsString
  import opened Command
  import opened SdsFormat

  /** What the write system call may come to. */
  datatype WriteResult = Again | WriteError | Wrote(n: nat)

  lemma {:induction false} PipelineSnoc(commands: seq<seq<bytes>>, args: seq<bytes>)
    ensures Pipeline(commands + [args]) == Pipeline(commands) + Formatted(args)
  {
    hide Formatted;
    if commands == [] {
      assert commands + [args] == [args];
      assert Pipeline([args]) == Formatted(args) + [];
    } else {
      assert (commands + [args])[1..] == commands[1..] + [args];
      PipelineSnoc(commands[1..], args);
      Assoc(Formatted(commands[0]), Pipeline(commands[1..]), Formatted(args));
    }
  }

  class RedisContext {
    var err: bool
    var obuf: Sds
    ghost var commands: seq<seq<bytes>>  // every command appended so far
    ghost var sent: bytes                // every byte handed to the socket so far

    /** Conservation: no byte of a command is lost, repeated or reordered between the caller and the socket. */
    ghost predicate Valid()
      reads this, obuf, obuf.buf
    {
      obuf.Valid() && sent + obuf.Contents() == Pipeline(commands)
    }

    ghost function Repr(): set<object>
      reads this, obuf
    {
      {this, obuf, obuf.buf}
    }

    constructor ()
      ensures Valid() && fresh(Repr()) && !err && commands == [] && sent == [] && obuf.len == 0
    {
      err, commands, sent := false, [], [];
      obuf := new Sds([]);
    }

    /** __redisAppendCommand. */
    method AppendCommand(cmd: bytes, ghost args: seq<bytes>)
      requires Valid() && cmd == Formatted(args) && obuf.len + |cmd| + SDS_MAX_PREALLOC <= INT_MAX
      modifies Repr()
      ensures Valid() && fresh(Repr() - old(Repr()))
      ensures commands == old(commands) + [args] && sent == old(sent) && err == old(err)
      ensures obuf.Contents() == old(obuf.Contents()) + cmd
    {
      hide Formatted, Pipeline;
      PipelineSnoc(commands, args);
      Assoc(sent, obuf.Contents(), cmd);
      obuf.CatLen(cmd);
      commands := commands + [args];
    }

    /** redisAppendCommandArgv. */
    method AppendCommandArgv(args: seq<bytes>)
      requires Valid() && obuf.len + |Formatted(args)| + 1 + SDS_MAX_PREALLOC <= INT_MAX
      modifies Repr()
      ensures Valid() && fresh(Repr() - old(Repr()))
      ensures commands == old(commands) + [args] && sent == old(sent) && err == old(err)
    {
      hide Formatted, Pipeline;
      var cmd, n := FormatSdsCommandArgv(args);
      AppendCommand(cmd.buf[..n], args);
    }

    /** redisBufferWrite. On success, done tells whether everything has been written. */
    method BufferWrite(result: WriteResult) returns (ok: bool, done: bool)
      requires Valid() && (result.Wrote? ==> result.n <= obuf.len)
      modifies Repr()
      ensures Valid() && fresh(Repr() - old(Repr()))
      ensures commands == old(commands)
      ensures var n := if old(err) || old(obuf.len) == 0 || !result.Wrote? then 0 else result.n;
              sent == old(sent) + old(obuf.Contents())[..n] && obuf.Contents() == old(obuf.Contents())[n..]
      ensures ok == !err && err == (old(err) || (old(obuf.len) > 0 && result.WriteError?))
      ensures ok ==> done == (sent == Pipeline(commands))
    {
      hide Pipeline;
      done := false;
      assert obuf.Contents()[..0] == [] && obuf.Contents()[0..] == obuf.Contents() && sent + [] == sent;
      if err {
        return false, false;
      }
      if obuf.len > 0 {
        match result
        case WriteError =>
          err := true;
          return false, false;
        case Wrote(n) => Consume(n);
        case Again =>
      }
      return true, obuf.len == 0;
    }

    /** The nwritten branch of redisBufferWrite: the written bytes leave the buffer. */
    method Consume(n: nat)
      requires Valid() && 0 < obuf.len && n <= obuf.len
      modifies Repr()
      ensures Valid() && fresh(Repr() - old(Repr()))
      ensures commands == old(commands) && err == old(err)
      ensures sent == old(sent) + old(obuf.Contents())[..n] && obuf.Contents() == old(obuf.Contents())[n..]
    {
      hide Pipeline;
      ghost var text := obuf.Contents();
      assert text == text[..n] + text[n..];
      Assoc(sent, text[..n], text[n..]);
      if n > 0 {
        if n == obuf.len {
          obuf := new Sds([]);
        } else {
          SliceSplits(text, n);
          obuf.Range(n, -1);
        }
      }
      sent := sent + text[..n];
    }
  }

  /**
   The other end of the socket, after any sequence of appends and partial writes and however the bytes arrive:
   once the rest of the buffer follows, exactly the appended commands have been read, with no byte left over.
   */
  lemma {:induction false} PeerReadsCommands(commands: seq<seq<bytes>>, sent: bytes, pending: bytes, chunks: seq<bytes>)
    requires forall i :: 0 <= i < |commands| ==> Sendable(commands[i])
    requires sent + pending == Pipeline(commands) && Flatten(chunks) == sent
    ensures FeedChunk(FeedChunks(Session([], Waiting(START, [])), chunks), pending)
         == Session(Trees(commands), Waiting(START, []))
  {
    hide ReadAll, FeedChunks, Sendable, Pipeline, Flatten;
    StartOfSession();
    ChunkIndependence(START, [], chunks);
    assert [] + sent == sent;
    ReadAllExtends(START, sent, pending);
    PipelineDecodes(commands);
  }

  lemma StartOfSession()
    ensures ReadAll(START, []) == Session([], Waiting(START, []))
  {
  }
}
