/** sdscatfmt (sds.c) and the command formatter built on it (hiredis.c). */
module SdsFormat {
  import opened Bytes
  import opened SdsString
  import opened Printing
  import opened Command

  /** A variadic argument of sdscatfmt. */
  datatype FmtArg = Text(text: bytes) | Signed(value: int) | Unsigned(number: nat)

  /** What a conversion letter takes from the argument list; Verbatim takes nothing. */
  datatype Conversion = ToText | ToSigned | ToUnsigned | Verbatim

  function ConversionOf(letter: byte): Conversion {
    if letter == 115 || letter == 83 then ToText                             // s, S
    else if letter == 105 || letter == 73 then ToSigned                      // i, I
    else if letter == 117 || letter == 85 || letter == 84 then ToUnsigned    // u, U, T
    else Verbatim
  }

  /** The argument list fits the format, and the format does not end in a lone percent sign. */
  predicate FmtOk(fmt: bytes, args: seq<FmtArg>) {
    if fmt == [] then true
    else if fmt[0] != PERCENT then FmtOk(fmt[1..], args)
    else
      && |fmt| >= 2
      && if ConversionOf(fmt[1]).Verbatim? then FmtOk(fmt[2..], args)
         else
           && args != []
           && FmtOk(fmt[2..], args[1..])
           && Fits(ConversionOf(fmt[1]), args[0])
  }

  function ArgText(arg: FmtArg): bytes {
    match arg
    case Text(t) => t
    case Signed(v) => Number(v)
    case Unsigned(n) => Digits(n)
  }

  /** The text that a format stands for. */
  function Fmt(fmt: bytes, args: seq<FmtArg>): bytes
    requires FmtOk(fmt, args)
  {
    if fmt == [] then []
    else if fmt[0] != PERCENT then [fmt[0]] + Fmt(fmt[1..], args)
    else if ConversionOf(fmt[1]).Verbatim? then [fmt[1]] + Fmt(fmt[2..], args)
    else ArgText(args[0]) + Fmt(fmt[2..], args[1..])
  }

  /** The first directive of a format: how much of it, how many arguments, and its text. */
  function Directive(fmt: bytes, args: seq<FmtArg>): (d: (nat, nat, bytes))
    requires FmtOk(fmt, args) && fmt != []
    ensures 1 <= d.0 <= |fmt| && d.1 <= |args|
    ensures FmtOk(fmt[d.0..], args[d.1..])
    ensures Fmt(fmt, args) == d.2 + Fmt(fmt[d.0..], args[d.1..])
  {
    assert args[0..] == args;
    if fmt[0] != PERCENT then (1, 0, [fmt[0]])
    else if ConversionOf(fmt[1]).Verbatim? then (2, 0, [fmt[1]])
    else (2, 1, ArgText(args[0]))
  }

  /** memcpy behind the text: the length moves, the NUL is written only at the end of the format. */
  method PutText(s: Sds, t: bytes)
    requires s.Shape() && s.free >= |t|
    modifies s`len, s`free, s.buf
    ensures s.Shape() && s.Contents() == old(s.Contents()) + t && s.len + s.free == old(s.len + s.free)
  {
    forall j | 0 <= j < |t| {
      s.buf[s.len + j] := t[j];
    }
    s.len := s.len + |t|;
    s.free := s.free - |t|;
  }

  predicate Fits(conversion: Conversion, arg: FmtArg) {
    match conversion
    case ToText => arg.Text?
    case ToSigned => arg.Signed? && LLONG_MIN < arg.value <= LLONG_MAX
    case ToUnsigned => arg.Unsigned? && arg.number <= ULLONG_MAX
    case Verbatim => false
  }

  /** The text of one argument of a conversion, printed the way its letter says. */
  method PrintArg(conversion: Conversion, arg: FmtArg) returns (t: bytes)
    requires Fits(conversion, arg)
    ensures t == ArgText(arg)
  {
    if conversion == ToText {
      return arg.text;
    }
    var num := new byte[SDS_LLSTR_SIZE];
    var l;
    if conversion == ToSigned {
      l := Ll2Str(num, arg.value);
    } else {
      l := Ull2Str(num, arg.number);
    }
    t := num[..l];
  }

  /** The room and the text of one argument. */
  method PutArg(s: Sds, conversion: Conversion, arg: FmtArg)
    requires s.Shape() && Fits(conversion, arg) && s.len + |ArgText(arg)| + SDS_MAX_PREALLOC <= INT_MAX
    modifies s, s.buf
    ensures s.Shape() && s.Contents() == old(s.Contents()) + ArgText(arg)
    ensures s.buf == old(s.buf) || fresh(s.buf)
  {
    var t := PrintArg(conversion, arg);
    if s.free < |t| {
      s.MakeRoomFor(|t|);
    }
    PutText(s, t);
  }

  /** sdscatfmt. */
  method CatFmt(s: Sds, fmt: bytes, args: seq<FmtArg>)
    requires s.Valid() && FmtOk(fmt, args)
    requires s.len + |Fmt(fmt, args)| + 1 + SDS_MAX_PREALLOC <= INT_MAX
    modifies s, s.buf
    ensures s.Valid() && s.Contents() == old(s.Contents()) + Fmt(fmt, args)
    ensures s.buf == old(s.buf) || fresh(s.buf)
  {
    hide Fmt, FmtOk, Fits, ConversionOf, ArgText, Directive;
    ghost var goal := s.Contents() + Fmt(fmt, args);
    var f, a := 0, 0;
    assert fmt[0..] == fmt && args[0..] == args;
    while f < |fmt|
      invariant 0 <= f <= |fmt| && 0 <= a <= |args| && s.Shape()
      invariant FmtOk(fmt[f..], args[a..]) && s.Contents() + Fmt(fmt[f..], args[a..]) == goal
      invariant s.buf == old(s.buf) || fresh(s.buf)
    {
      ghost var d := Directive(fmt[f..], args[a..]);
      Assoc(s.Contents(), d.2, Fmt(fmt[f..][d.0..], args[a..][d.1..]));
      assert fmt[f..][d.0..] == fmt[f + d.0..] && args[a..][d.1..] == args[a + d.1..];
      FirstDirective(fmt[f..], args[a..]);
      if s.free == 0 {
        s.MakeRoomFor(1);
      }
      if fmt[f] != PERCENT {
        PutText(s, [fmt[f]]);
      } else {
        var conversion := ConversionOf(fmt[f + 1]);
        f := f + 1;
        if conversion == Verbatim {
          PutText(s, [fmt[f]]);
        } else {
          PutArg(s, conversion, args[a]);
          a := a + 1;
        }
      }
      f := f + 1;
    }
    FmtEnd(fmt[f..], args[a..]);
    s.buf[s.len] := 0;
  }

  lemma FmtEnd(fmt: bytes, args: seq<FmtArg>)
    requires fmt == []
    ensures FmtOk(fmt, args) && Fmt(fmt, args) == []
  {
  }

  /** What the code finds at the first directive. */
  lemma FirstDirective(fmt: bytes, args: seq<FmtArg>)
    requires FmtOk(fmt, args) && fmt != []
    ensures fmt[0] != PERCENT ==> Directive(fmt, args) == (1, 0, [fmt[0]])
    ensures fmt[0] == PERCENT ==>
              && |fmt| >= 2
              && var c := ConversionOf(fmt[1]);
                 if c.Verbatim? then Directive(fmt, args) == (2, 0, [fmt[1]])
                 else
                   && args != []
                   && Directive(fmt, args) == (2, 1, ArgText(args[0]))
                   && Fits(c, args[0])
  {
  }

  // ------------------------------------------------------------ what formats mean

  /** A part of a format, with the argument that is passed for it. */
  datatype Part =
    | Char(c: byte)
    | Escape(c: byte)                    // a percent sign and a byte that is no conversion
    | String(letter: byte, s: bytes)
    | Int(letter: byte, v: int)
    | Nat(letter: byte, n: nat)

  predicate GoodPart(p: Part) {
    match p
    case Char(c) => c != PERCENT
    case Escape(c) => c !in [115, 83, 105, 73, 117, 85, 84]
    case String(letter, _) => letter in [115, 83]
    case Int(letter, v) => letter in [105, 73] && LLONG_MIN < v <= LLONG_MAX
    case Nat(letter, n) => letter in [117, 85, 84] && n <= ULLONG_MAX
  }

  function SpelledPart(p: Part): bytes {
    match p
    case Char(c) => [c]
    case Escape(c) => [PERCENT, c]
    case String(letter, _) => [PERCENT, letter]
    case Int(letter, _) => [PERCENT, letter]
    case Nat(letter, _) => [PERCENT, letter]
  }

  function ArgsOfPart(p: Part): seq<FmtArg> {
    match p
    case String(_, s) => [Text(s)]
    case Int(_, v) => [Signed(v)]
    case Nat(_, n) => [Unsigned(n)]
    case _ => []
  }

  function TextOfPart(p: Part): bytes {
    match p
    case Char(c) => [c]
    case Escape(c) => [c]
    case String(_, s) => s
    case Int(_, v) => Number(v)
    case Nat(_, n) => Digits(n)
  }

  function Spelled(ps: seq<Part>): bytes {
    if ps == [] then [] else SpelledPart(ps[0]) + Spelled(ps[1..])
  }

  function ArgsOf(ps: seq<Part>): seq<FmtArg> {
    if ps == [] then [] else ArgsOfPart(ps[0]) + ArgsOf(ps[1..])
  }

  function TextOf(ps: seq<Part>): bytes {
    if ps == [] then [] else TextOfPart(ps[0]) + TextOf(ps[1..])
  }

  /** A format that is put together from parts stands for the texts of these, one behind the other. */
  lemma {:induction false} FmtExactly(ps: seq<Part>)
    requires forall i :: 0 <= i < |ps| ==> GoodPart(ps[i])
    ensures FmtOk(Spelled(ps), ArgsOf(ps)) && Fmt(Spelled(ps), ArgsOf(ps)) == TextOf(ps)
  {
    hide SpelledPart, ArgsOfPart, TextOfPart, GoodPart, FmtOk, Fmt;
    if ps == [] {
      FmtEnd([], []);
    } else {
      FmtExactly(ps[1..]);
      FmtOfPart(ps[0], Spelled(ps[1..]), ArgsOf(ps[1..]));
    }
  }

  lemma FmtOfPart(p: Part, fmt: bytes, args: seq<FmtArg>)
    requires GoodPart(p) && FmtOk(fmt, args)
    ensures var f, all := SpelledPart(p) + fmt, ArgsOfPart(p) + args;
            FmtOk(f, all) && Fmt(f, all) == TextOfPart(p) + Fmt(fmt, args)
  {
    hide Digits, Number;
    match p
    case Char(c) =>
      LiteralFmt(c, fmt, args);
      assert [] + args == args;
    case Escape(c) =>
      ConversionFmt(c, fmt, args);
      assert [] + args == args;
    case String(letter, s) => InsertFmt(letter, Text(s), fmt, args);
    case Int(letter, v) => InsertFmt(letter, Signed(v), fmt, args);
    case Nat(letter, n) => InsertFmt(letter, Unsigned(n), fmt, args);
  }

  lemma ConversionFmt(c: byte, fmt: bytes, args: seq<FmtArg>)
    requires ConversionOf(c).Verbatim? && FmtOk(fmt, args)
    ensures FmtOk([PERCENT, c] + fmt, args) && Fmt([PERCENT, c] + fmt, args) == [c] + Fmt(fmt, args)
  {
    assert ([PERCENT, c] + fmt)[2..] == fmt;
  }

  lemma InsertFmt(c: byte, arg: FmtArg, fmt: bytes, args: seq<FmtArg>)
    requires !ConversionOf(c).Verbatim? && Fits(ConversionOf(c), arg) && FmtOk(fmt, args)
    ensures var f, all := [PERCENT, c] + fmt, [arg] + args;
            FmtOk(f, all) && Fmt(f, all) == ArgText(arg) + Fmt(fmt, args)
  {
    hide ConversionOf, Fits, ArgText;
    assert ([PERCENT, c] + fmt)[2..] == fmt && ([arg] + args)[1..] == args;
  }

  // ----------------------------------------------------- commands in an sds string

  const COUNT_FORMAT: bytes := [STAR, PERCENT, 105, CR, LF]     // "*%i\r\n"
  const LENGTH_FORMAT: bytes := [DOLLAR, PERCENT, 84, CR, LF]   // "$%T\r\n"

  lemma LiteralFmt(c: byte, fmt: bytes, args: seq<FmtArg>)
    requires c != PERCENT && FmtOk(fmt, args)
    ensures FmtOk([c] + fmt, args) && Fmt([c] + fmt, args) == [c] + Fmt(fmt, args)
  {
    assert ([c] + fmt)[1..] == fmt;
  }

  lemma CrlfFmt()
    ensures FmtOk(CRLF, []) && Fmt(CRLF, []) == CRLF
  {
    LiteralFmt(LF, [], []);
    LiteralFmt(CR, [LF], []);
    assert [CR] + [LF] == CRLF && [LF] + [] == [LF];
  }

  lemma HeaderFormats(n: nat)
    requires n <= LLONG_MAX
    ensures FmtOk(COUNT_FORMAT, [Signed(n)]) && Fmt(COUNT_FORMAT, [Signed(n)]) == Header(n)
    ensures FmtOk(LENGTH_FORMAT, [Unsigned(n)]) && Fmt(LENGTH_FORMAT, [Unsigned(n)]) == [DOLLAR] + Number(n) + CRLF
  {
    hide Digits, Number;
    CrlfFmt();
    NumberOfNat(n);
    var i, u: bytes := [PERCENT, 105] + CRLF, [PERCENT, 84] + CRLF;
    assert i[2..] == CRLF && u[2..] == CRLF;
    assert [Signed(n)][1..] == [] && [Unsigned(n)][1..] == [];
    LiteralFmt(STAR, i, [Signed(n)]);
    LiteralFmt(DOLLAR, u, [Unsigned(n)]);
    assert [STAR] + i == COUNT_FORMAT && [DOLLAR] + u == LENGTH_FORMAT;
  }

  lemma NumberOfNat(n: nat)
    ensures Number(n) == Digits(n)
  {
    hide Digits;
  }

  /** redisFormatSdsCommandArgv: the same bytes as the other formatter, and exactly as many as computed before. */
  method FormatSdsCommandArgv(args: seq<bytes>) returns (cmd: Sds, totlen: nat)
    requires |Formatted(args)| + 1 + SDS_MAX_PREALLOC <= INT_MAX
    ensures fresh(cmd) && fresh(cmd.buf) && cmd.Valid()
    ensures cmd.Contents() == Formatted(args) && cmd.len == totlen
  {
    hide Digits, Number, Argument, Formatted, Header, FmtOk, Fmt;
    FormattedParts(args);
    SizesFit(args);
    assert args[0..] == args;
    totlen := TotalLength(args);
    cmd := new Sds([]);
    cmd.MakeRoomFor(totlen);
    HeaderFormats(|args|);
    CatFmt(cmd, COUNT_FORMAT, [Signed(|args|)]);
    for j := 0 to |args|
      invariant cmd.Valid() && fresh(cmd) && fresh(cmd.buf)
      invariant cmd.Contents() + Arguments(args[j..]) == Formatted(args)
    {
      ArgumentsFrom(args, j);
      Assoc(cmd.Contents(), Argument(args[j]), Arguments(args[j + 1..]));
      CatArgument(cmd, args[j]);
    }
    ArgumentsFrom(args, |args|);
    assert cmd.len == totlen;
  }

  method CatArgument(cmd: Sds, arg: bytes)
    requires cmd.Valid() && cmd.len + |Argument(arg)| + 1 + SDS_MAX_PREALLOC <= INT_MAX
    modifies cmd, cmd.buf
    ensures cmd.Valid() && cmd.Contents() == old(cmd.Contents()) + Argument(arg)
    ensures cmd.buf == old(cmd.buf) || fresh(cmd.buf)
  {
    hide Digits, Number, FmtOk, Fmt;
    ghost var before := cmd.Contents();
    HeaderFormats(|arg|);
    CatFmt(cmd, LENGTH_FORMAT, [Unsigned(|arg|)]);
    ghost var head := [DOLLAR] + Number(|arg|) + CRLF;
    cmd.CatLen(arg);
    cmd.CatLen(CRLF);
    Assoc(before, head, arg);
    Assoc(before, head + arg, CRLF);
  }

  lemma {:induction false} SizesFit(args: seq<bytes>)
    ensures |args| <= |Arguments(args)| <= |Formatted(args)|
  {
    FormattedParts(args);
    if args != [] {
      SizesFit(args[1..]);
    }
  }
}
