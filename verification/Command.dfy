/** Writing commands (hiredis.c): the argv formatters, which size a command before they fill its buffer. */
module Command {
  import opened Bytes
  import opened Resp
  import opened Printing

  /** A command is the array of its arguments as bulk strings. */
  function Bulks(args: seq<bytes>): (vs: seq<Reply>)
    ensures |vs| == |args|
    ensures forall i :: 0 <= i < |args| ==> vs[i] == Bulk(args[i])
  {
    if args == [] then [] else [Bulk(args[0])] + Bulks(args[1..])
  }

  function CommandTree(args: seq<bytes>): Reply {
    Array(|args|, Bulks(args))
  }

  function Header(argc: nat): bytes {
    [STAR] + Number(argc) + CRLF
  }

  /** One argument on the wire. */
  function Argument(arg: bytes): bytes {
    [DOLLAR] + Number(|arg|) + CRLF + arg + CRLF
  }

  function Arguments(args: seq<bytes>): bytes {
    if args == [] then [] else Argument(args[0]) + Arguments(args[1..])
  }

  lemma {:induction false} ArgumentsAreBulks(args: seq<bytes>)
    ensures Arguments(args) == EncodeAll(Bulks(args))
  {
    if args != [] {
      assert Bulks(args)[1..] == Bulks(args[1..]);
      ArgumentsAreBulks(args[1..]);
    }
  }

  /** The bytes of a command: what every formatter must produce. */
  function Formatted(args: seq<bytes>): bytes {
    Encode(CommandTree(args))
  }

  lemma FormattedParts(args: seq<bytes>)
    ensures Formatted(args) == Header(|args|) + Arguments(args)
  {
    ArgumentsAreBulks(args);
  }

  ghost predicate Sendable(args: seq<bytes>) {
    |args| <= INT_MAX && forall i :: 0 <= i < |args| ==> |args[i]| <= LLONG_MAX
  }

  /** Pipelined commands come out of a reader as the same arrays, in order, with no byte left. */
  lemma {:induction false} PipelineDecodes(commands: seq<seq<bytes>>)
    requires forall i :: 0 <= i < |commands| ==> Sendable(commands[i])
    ensures ReadAll(START, Pipeline(commands)) == Session(Trees(commands), Waiting(START, []))
  {
    hide ReadAll, Readable;
    forall i | 0 <= i < |commands| ensures Readable(Trees(commands)[i], 0) {
      SendableIsReadable(commands[i]);
    }
    PipelineIsStream(commands);
    StreamRoundTrip(Trees(commands));
  }

  function Pipeline(commands: seq<seq<bytes>>): bytes {
    if commands == [] then [] else Formatted(commands[0]) + Pipeline(commands[1..])
  }

  function Trees(commands: seq<seq<bytes>>): (vs: seq<Reply>)
    ensures |vs| == |commands|
    ensures forall i :: 0 <= i < |commands| ==> vs[i] == CommandTree(commands[i])
  {
    if commands == [] then [] else [CommandTree(commands[0])] + Trees(commands[1..])
  }

  lemma SendableIsReadable(args: seq<bytes>)
    requires Sendable(args)
    ensures Readable(CommandTree(args), 0)
  {
  }

  lemma {:induction false} PipelineIsStream(commands: seq<seq<bytes>>)
    ensures Pipeline(commands) == EncodeAll(Trees(commands))
  {
    hide Encode;
    if commands != [] {
      assert Trees(commands)[1..] == Trees(commands[1..]);
      PipelineIsStream(commands[1..]);
    }
  }

  // ------------------------------------------------------------------- sizes

  /** bulklen. */
  method BulkLen(n: nat) returns (total: nat)
    ensures forall arg: bytes :: |arg| == n ==> |Argument(arg)| == total
  {
    hide Digits;
    var digits := CountDigits(n);
    total := 1 + digits + 2 + n + 2;
  }

  lemma {:induction false} ArgumentsSnoc(args: seq<bytes>, arg: bytes)
    ensures Arguments(args + [arg]) == Arguments(args) + Argument(arg)
  {
    hide Argument;
    if args == [] {
      assert args + [arg] == [arg];
      assert Arguments([arg]) == Argument(arg) + [];
    } else {
      assert (args + [arg])[1..] == args[1..] + [arg];
      ArgumentsSnoc(args[1..], arg);
      Assoc(Argument(args[0]), Arguments(args[1..]), Argument(arg));
    }
  }

  /** The sizing loop that both argv formatters start with. */
  method TotalLength(args: seq<bytes>) returns (totlen: nat)
    ensures totlen == |Formatted(args)|
  {
    hide Digits, Argument, Formatted;
    FormattedParts(args);
    var digits := CountDigits(|args|);
    totlen := 1 + digits + 2;
    for j := 0 to |args|
      invariant totlen == |Header(|args|)| + |Arguments(args[..j])|
    {
      var n := BulkLen(|args[j]|);
      totlen := totlen + n;
      ArgumentsSnoc(args[..j], args[j]);
      assert args[..j + 1] == args[..j] + [args[j]];
    }
    assert args[..|args|] == args;
  }

  // ----------------------------------------------------------------- writing

  /** sprintf or memcpy into a command buffer: t and a NUL after it. */
  method Put(cmd: array<byte>, pos: nat, t: bytes)
    requires pos + |t| < cmd.Length
    modifies cmd
    ensures cmd[..pos + |t|] == old(cmd[..pos]) + t && cmd[pos + |t|] == 0
  {
    forall i | 0 <= i < |t| {
      cmd[pos + i] := t[i];
    }
    cmd[pos + |t|] := 0;
  }

  lemma ArgumentsFrom(args: seq<bytes>, j: nat)
    requires j <= |args|
    ensures j < |args| ==> Arguments(args[j..]) == Argument(args[j]) + Arguments(args[j + 1..])
    ensures j == |args| ==> Arguments(args[j..]) == []
  {
    if j < |args| {
      assert args[j..][1..] == args[j + 1..];
    }
  }

  /** One argument: its length line, its bytes, and CR LF. */
  method PutArgument(cmd: array<byte>, pos0: nat, arg: bytes) returns (pos: nat)
    requires pos0 + |Argument(arg)| < cmd.Length
    modifies cmd
    ensures pos == pos0 + |Argument(arg)| && cmd[..pos] == old(cmd[..pos0]) + Argument(arg)
  {
    hide Number;
    ghost var before := cmd[..pos0];
    var head := [DOLLAR] + Number(|arg|) + CRLF;
    Put(cmd, pos0, head);
    pos := pos0 + |head|;
    Put(cmd, pos, arg);
    pos := pos + |arg|;
    Put(cmd, pos, CRLF);
    pos := pos + 2;
    Assoc(before, head, arg);
    Assoc(before, head + arg, CRLF);
  }

  /** The loop that writes a command of a known total length; the length is met exactly. */
  method Build(args: seq<bytes>, totlen: nat) returns (cmd: array<byte>)
    requires totlen == |Formatted(args)|
    ensures fresh(cmd) && cmd.Length == totlen + 1
    ensures cmd[..totlen] == Formatted(args) && cmd[totlen] == 0
  {
    hide Digits, Number, Argument, Formatted;
    FormattedParts(args);
    assert args[0..] == args;
    cmd := new byte[totlen + 1];
    var head := Header(|args|);
    Put(cmd, 0, head);
    var pos := |head|;
    assert cmd[..pos] == head;
    for j := 0 to |args|
      invariant 0 <= pos <= totlen && cmd.Length == totlen + 1
      invariant cmd[..pos] + Arguments(args[j..]) == Formatted(args)
    {
      ArgumentsFrom(args, j);
      Assoc(cmd[..pos], Argument(args[j]), Arguments(args[j + 1..]));
      pos := PutArgument(cmd, pos, args[j]);
    }
    ArgumentsFrom(args, |args|);
    assert pos == totlen;
    cmd[pos] := 0;
  }

  /** redisFormatCommandArgv: the command of these arguments, in a buffer of exactly its size and a NUL. */
  method FormatCommandArgv(args: seq<bytes>) returns (cmd: array<byte>, totlen: nat)
    requires |Formatted(args)| <= INT_MAX
    ensures fresh(cmd) && cmd.Length == totlen + 1
    ensures cmd[..totlen] == Formatted(args) && cmd[totlen] == 0
  {
    totlen := TotalLength(args);
    cmd := Build(args, totlen);
  }
}
