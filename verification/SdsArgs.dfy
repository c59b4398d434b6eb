/** sdscatrepr and sdssplitargs (sds.c): quoting byte strings, and reading a line of quoted arguments back. */
module SdsArgs {
  import opened Bytes
  import opened SdsString

  const QUOTE: byte := 34
  const APOSTROPHE: byte := 39
  const BACKSLASH: byte := 92
  const LETTER_X: byte := 120

  predicate IsSpace(c: byte) { c == 32 || 9 <= c <= 13 }
  predicate IsPrint(c: byte) { 32 <= c <= 126 }
  predicate IsHexDigit(c: byte) { 48 <= c <= 57 || 97 <= c <= 102 || 65 <= c <= 70 }

  function HexDigit(d: int): byte
    requires 0 <= d < 16
  {
    if d < 10 then 48 + d else 87 + d
  }

  /** hex_digit_to_int. */
  function HexValue(c: byte): (d: int)
    ensures 0 <= d < 16
  {
    if 48 <= c <= 57 then c - 48 else if 97 <= c <= 102 then c - 87 else if 65 <= c <= 70 then c - 55 else 0
  }

  // ------------------------------------------------------------------ quoting

  /** How one byte is written between double quotes. */
  function Escape(b: byte): bytes {
    if b == BACKSLASH || b == QUOTE then [BACKSLASH, b]
    else if b == LF then [BACKSLASH, 110]
    else if b == CR then [BACKSLASH, 114]
    else if b == 9 then [BACKSLASH, 116]
    else if b == 7 then [BACKSLASH, 97]
    else if b == 8 then [BACKSLASH, 98]
    else if IsPrint(b) then [b]
    else [BACKSLASH, LETTER_X, HexDigit(b / 16), HexDigit(b % 16)]
  }

  function EscapeAll(s: bytes): bytes {
    if s == [] then [] else Escape(s[0]) + EscapeAll(s[1..])
  }

  function Repr(s: bytes): bytes {
    [QUOTE] + EscapeAll(s) + [QUOTE]
  }

  /** The quoted forms, with one space between them. */
  function ReprLine(args: seq<bytes>): bytes {
    if args == [] then [] else if |args| == 1 then Repr(args[0]) else Repr(args[0]) + [SPACE] + ReprLine(args[1..])
  }

  // ------------------------------------------------------------------ parsing

  datatype Mode = Bare | InDouble | InSingle

  /** One turn of the token loop: text for the token and how many bytes it takes; the end of the token; or an error. */
  datatype Turn = More(mode: Mode, emit: bytes, drop: nat) | End(drop: nat) | Bad

  function Unescape(c: byte): byte {
    if c == 110 then LF
    else if c == 114 then CR
    else if c == 116 then 9
    else if c == 98 then 8
    else if c == 97 then 7
    else c
  }

  function Closing(l: bytes): Turn
    requires l != []
  {
    if |l| >= 2 && !IsSpace(l[1]) then Bad else End(1)
  }

  function DoubleTurn(l: bytes): Turn {
    if |l| >= 4 && l[0] == BACKSLASH && l[1] == LETTER_X && IsHexDigit(l[2]) && IsHexDigit(l[3]) then
      More(InDouble, [HexValue(l[2]) * 16 + HexValue(l[3])], 4)
    else if |l| >= 2 && l[0] == BACKSLASH then More(InDouble, [Unescape(l[1])], 2)
    else if l == [] then Bad
    else if l[0] == QUOTE then Closing(l)
    else More(InDouble, [l[0]], 1)
  }

  function SingleTurn(l: bytes): Turn {
    if |l| >= 2 && l[0] == BACKSLASH && l[1] == APOSTROPHE then More(InSingle, [APOSTROPHE], 2)
    else if l == [] then Bad
    else if l[0] == APOSTROPHE then Closing(l)
    else More(InSingle, [l[0]], 1)
  }

  function BareTurn(l: bytes): Turn {
    if l == [] then End(0)
    else if l[0] == SPACE || l[0] == LF || l[0] == CR || l[0] == 9 then End(1)
    else if l[0] == QUOTE then More(InDouble, [], 1)
    else if l[0] == APOSTROPHE then More(InSingle, [], 1)
    else More(Bare, [l[0]], 1)
  }

  function TurnOf(l: bytes, mode: Mode): (t: Turn)
    ensures t.More? ==> 1 <= t.drop <= |l|
    ensures t.End? ==> t.drop <= |l| && (l != [] ==> t.drop == 1)
  {
    match mode
    case Bare => BareTurn(l)
    case InDouble => DoubleTurn(l)
    case InSingle => SingleTurn(l)
  }

  /** A whole token, given what it holds so far; None for unbalanced or badly closed quotes. */
  function Token(l: bytes, mode: Mode, cur: bytes): (r: Option<(bytes, bytes)>)
    ensures r.Some? ==> |r.value.1| <= |l| && (l != [] ==> |r.value.1| < |l|)
    decreases |l|
  {
    match TurnOf(l, mode)
    case Bad => None
    case End(n) => Some((cur, l[n..]))
    case More(mode', emit, n) => Token(l[n..], mode', cur + emit)
  }

  function SkipBlanks(l: bytes): (r: bytes)
    ensures |r| <= |l|
  {
    if l != [] && IsSpace(l[0]) then SkipBlanks(l[1..]) else l
  }

  /** The arguments on a line. */
  function Args(line: bytes): Option<seq<bytes>>
    decreases |line|
  {
    var l := SkipBlanks(line);
    if l == [] then Some([])
    else
      match Token(l, Bare, [])
      case None => None
      case Some((t, rest)) =>
        match Args(rest)
        case None => None
        case Some(ts) => Some([t] + ts)
  }

  // --------------------------------------------------------------- round trip

  lemma EscapedByteReadsBack(b: byte, t: bytes)
    ensures TurnOf(Escape(b) + t, InDouble) == More(InDouble, [b], |Escape(b)|)
    ensures (Escape(b) + t)[|Escape(b)|..] == t
  {
    var l := Escape(b) + t;
    assert forall i :: 0 <= i < |Escape(b)| ==> l[i] == Escape(b)[i];
  }

  lemma {:induction false} EscapedReadsBack(s: bytes, rest: bytes, cur: bytes)
    requires rest != [] ==> IsSpace(rest[0])
    ensures Token(EscapeAll(s) + ([QUOTE] + rest), InDouble, cur) == Some((cur + s, rest))
    decreases |s|
  {
    hide Escape, EscapeAll, TurnOf, Token;
    var tail := [QUOTE] + rest;
    EscapeHead(s, 0);
    assert s[0..] == s;
    if s == [] {
      ClosingQuote(rest);
      TokenStep(tail, InDouble, cur);
      assert [] + tail == tail && cur + [] == cur && tail[1..] == rest;
    } else {
      var t := EscapeAll(s[1..]) + tail;
      Assoc(Escape(s[0]), EscapeAll(s[1..]), tail);
      EscapedByteReadsBack(s[0], t);
      TokenStep(Escape(s[0]) + t, InDouble, cur);
      EscapedReadsBack(s[1..], rest, cur + [s[0]]);
      Assoc(cur, [s[0]], s[1..]);
      assert [s[0]] + s[1..] == s;
    }
  }

  lemma ClosingQuote(rest: bytes)
    requires rest != [] ==> IsSpace(rest[0])
    ensures TurnOf([QUOTE] + rest, InDouble) == End(1)
  {
    var l := [QUOTE] + rest;
    assert |l| >= 2 ==> l[1] == rest[0];
  }

  lemma ReprReadsBack(s: bytes, rest: bytes)
    requires rest != [] ==> IsSpace(rest[0])
    ensures SkipBlanks(Repr(s) + rest) == Repr(s) + rest
    ensures Token(Repr(s) + rest, Bare, []) == Some((s, rest))
  {
    hide EscapeAll;
    var l := Repr(s) + rest;
    var inner := EscapeAll(s) + ([QUOTE] + rest);
    assert l == [QUOTE] + inner && l[1..] == inner;
    EscapedReadsBack(s, rest, []);
    assert [] + s == s;
    var none: bytes := [];
    assert none + none == none;
    assert Token(l, Bare, none) == Token(inner, InDouble, none + none);
  }

  /** Any list of byte strings survives quoting and reading back. */
  lemma {:induction false} QuoteRoundTrip(args: seq<bytes>)
    ensures Args(ReprLine(args)) == Some(args)
    decreases |args|
  {
    hide Repr, Token;
    if args != [] {
      var tail := if |args| == 1 then [] else [SPACE] + ReprLine(args[1..]);
      assert ReprLine(args) == Repr(args[0]) + tail;
      ReprReadsBack(args[0], tail);
      ReprNonEmpty(args[0], tail);
      QuoteRoundTrip(args[1..]);
      ArgsSkipSpace(args[1..], tail);
      assert [args[0]] + args[1..] == args;
    }
  }

  lemma ReprNonEmpty(s: bytes, t: bytes)
    ensures Repr(s) + t != []
  {
  }

  lemma ArgsSkipSpace(args: seq<bytes>, tail: bytes)
    requires tail == if args == [] then [] else [SPACE] + ReprLine(args)
    ensures Args(tail) == Args(ReprLine(args))
  {
    hide Token, Repr;
    if args != [] {
      assert tail[1..] == ReprLine(args);
    }
  }

  lemma EscapeNoNul(b: byte)
    ensures 0 !in Escape(b) && |Escape(b)| <= 4
  {
  }

  lemma {:induction false} EscapeAllNoNul(s: bytes)
    ensures 0 !in EscapeAll(s) && |EscapeAll(s)| <= 4 * |s|
  {
    hide Escape;
    if s != [] {
      EscapeNoNul(s[0]);
      EscapeAllNoNul(s[1..]);
    }
  }

  /** The quoted form holds no NUL, whatever the bytes: a parser of C strings sees all of it. */
  lemma {:induction false} ReprLineNoNul(args: seq<bytes>)
    ensures 0 !in ReprLine(args)
    decreases |args|
  {
    hide EscapeAll;
    if args != [] {
      EscapeAllNoNul(args[0]);
      ReprLineNoNul(args[1..]);
    }
  }

  lemma EscapePrintable(b: byte)
    ensures forall i :: 0 <= i < |Escape(b)| ==> IsPrint(Escape(b)[i])
    ensures IsPrint(b) && b != QUOTE && b != BACKSLASH ==> Escape(b) == [b]
  {
  }

  /** What is printed can be printed: printable text as it is, and everything else in printable bytes. */
  lemma {:induction false} ReprPrintable(s: bytes)
    ensures forall i :: 0 <= i < |Repr(s)| ==> IsPrint(Repr(s)[i])
    ensures (forall i :: 0 <= i < |s| ==> IsPrint(s[i]) && s[i] != QUOTE && s[i] != BACKSLASH) ==>
              Repr(s) == [QUOTE] + s + [QUOTE]
  {
    EscapedPrintable(s);
  }

  lemma {:induction false} EscapedPrintable(s: bytes)
    ensures forall i :: 0 <= i < |EscapeAll(s)| ==> IsPrint(EscapeAll(s)[i])
    ensures (forall i :: 0 <= i < |s| ==> IsPrint(s[i]) && s[i] != QUOTE && s[i] != BACKSLASH) ==> EscapeAll(s) == s
  {
    hide Escape, IsPrint;
    if s != [] {
      EscapePrintable(s[0]);
      EscapedPrintable(s[1..]);
      if forall i :: 0 <= i < |s| ==> IsPrint(s[i]) && s[i] != QUOTE && s[i] != BACKSLASH {
        assert [s[0]] + s[1..] == s;
      }
    }
  }

  // ------------------------------------------------------------------ the code

  /** sdscatrepr: appends the quoted form of p. */
  method CatRepr(s: Sds, p: bytes)
    requires s.Valid() && s.len + |Repr(p)| + SDS_MAX_PREALLOC <= INT_MAX
    modifies s, s.buf
    ensures s.Valid() && s.Contents() == old(s.Contents()) + Repr(p)
    ensures s.buf == old(s.buf) || fresh(s.buf)
  {
    hide Escape, EscapeAll;
    ghost var goal := s.Contents() + Repr(p);
    s.CatLen([QUOTE]);
    assert p[0..] == p;
    Assoc(old(s.Contents()), [QUOTE], EscapeAll(p));
    Assoc(old(s.Contents()), [QUOTE] + EscapeAll(p), [QUOTE]);
    for i := 0 to |p|
      invariant s.Valid() && (s.buf == old(s.buf) || fresh(s.buf))
      invariant s.Contents() + EscapeAll(p[i..]) + [QUOTE] == goal
    {
      EscapeHead(p, i);
      Assoc(s.Contents(), Escape(p[i]), EscapeAll(p[i + 1..]));
      CatEscaped(s, p[i]);
    }
    EscapeHead(p, |p|);
    assert s.Contents() + [] == s.Contents();
    s.CatLen([QUOTE]);
  }

  lemma EscapeHead(p: bytes, i: nat)
    requires i <= |p|
    ensures i < |p| ==> EscapeAll(p[i..]) == Escape(p[i]) + EscapeAll(p[i + 1..])
    ensures i == |p| ==> EscapeAll(p[i..]) == []
  {
    if i < |p| {
      assert p[i..][1..] == p[i + 1..];
    }
  }

  /** The switch of sdscatrepr for one byte. */
  method CatEscaped(s: Sds, c: byte)
    requires s.Valid() && s.len + |Escape(c)| + SDS_MAX_PREALLOC <= INT_MAX
    modifies s, s.buf
    ensures s.Valid() && s.Contents() == old(s.Contents()) + Escape(c)
    ensures s.buf == old(s.buf) || fresh(s.buf)
  {
    var t: bytes;
    if c == BACKSLASH || c == QUOTE {
      t := [BACKSLASH, c];
    } else if c == 10 {
      t := [BACKSLASH, 110];
    } else if c == 13 {
      t := [BACKSLASH, 114];
    } else if c == 9 {
      t := [BACKSLASH, 116];
    } else if c == 7 {
      t := [BACKSLASH, 97];
    } else if c == 8 {
      t := [BACKSLASH, 98];
    } else if IsPrint(c) {
      t := [c];
    } else {
      t := [BACKSLASH, LETTER_X, HexDigit(c / 16), HexDigit(c % 16)];
    }
    s.CatLen(t);
  }

  /** A C string in memory: its text is everything before the NUL at the end. */
  ghost predicate Line(line: bytes) {
    line != [] && line[|line| - 1] == 0 && 0 !in line[..|line| - 1]
  }

  /** The text from position p on. */
  ghost function From(line: bytes, p: nat): bytes
    requires Line(line) && p < |line|
  {
    line[p..|line| - 1]
  }

  lemma FromAt(line: bytes, p: nat)
    requires Line(line) && p < |line|
    ensures var l := From(line, p);
            && |l| == |line| - 1 - p
            && (line[p] == 0 <==> p == |line| - 1)
            && (forall i :: 0 <= i < |l| ==> l[i] == line[p + i] != 0)
            && (forall n :: 0 <= n <= |l| ==> l[n..] == From(line, p + n))
  {
    var l := From(line, p);
    forall i | 0 <= i < |l| ensures l[i] == line[p + i] != 0 {
      assert line[p + i] == line[..|line| - 1][p + i];
      assert line[p + i] in line[..|line| - 1];
    }
    forall n | 0 <= n <= |l| ensures l[n..] == From(line, p + n) {
    }
  }

  /** One turn inside double quotes: appends to the token; returns where to go on. */
  method TurnInDouble(line: bytes, p: nat, current: Sds) returns (t: Turn)
    requires Line(line) && p < |line| && current.Valid() && current.len + 1 + SDS_MAX_PREALLOC <= INT_MAX
    modifies current, current.buf
    ensures t == DoubleTurn(From(line, p))
    ensures current.Valid() && (current.buf == old(current.buf) || fresh(current.buf))
    ensures current.Contents() == if t.More? then old(current.Contents()) + t.emit else old(current.Contents())
  {
    FromAt(line, p);
    assert current.Contents() + [] == current.Contents();
    if line[p] == BACKSLASH && line[p + 1] == LETTER_X && IsHexDigit(line[p + 2]) && IsHexDigit(line[p + 3]) {
      var c := HexValue(line[p + 2]) * 16 + HexValue(line[p + 3]);
      current.CatLen([c]);
      return More(InDouble, [c], 4);
    } else if line[p] == BACKSLASH && line[p + 1] != 0 {
      var c := Unescape(line[p + 1]);
      current.CatLen([c]);
      return More(InDouble, [c], 2);
    } else if line[p] == QUOTE {
      if line[p + 1] != 0 && !IsSpace(line[p + 1]) {
        return Bad;
      }
      return End(1);
    } else if line[p] == 0 {
      return Bad;
    }
    current.CatLen([line[p]]);
    t := More(InDouble, [line[p]], 1);
  }

  method TurnInSingle(line: bytes, p: nat, current: Sds) returns (t: Turn)
    requires Line(line) && p < |line| && current.Valid() && current.len + 1 + SDS_MAX_PREALLOC <= INT_MAX
    modifies current, current.buf
    ensures t == SingleTurn(From(line, p))
    ensures current.Valid() && (current.buf == old(current.buf) || fresh(current.buf))
    ensures current.Contents() == if t.More? then old(current.Contents()) + t.emit else old(current.Contents())
  {
    FromAt(line, p);
    assert current.Contents() + [] == current.Contents();
    if line[p] == BACKSLASH && line[p + 1] == APOSTROPHE {
      current.CatLen([APOSTROPHE]);
      return More(InSingle, [APOSTROPHE], 2);
    } else if line[p] == APOSTROPHE {
      if line[p + 1] != 0 && !IsSpace(line[p + 1]) {
        return Bad;
      }
      return End(1);
    } else if line[p] == 0 {
      return Bad;
    }
    current.CatLen([line[p]]);
    t := More(InSingle, [line[p]], 1);
  }

  method TurnBare(line: bytes, p: nat, current: Sds) returns (t: Turn)
    requires Line(line) && p < |line| && current.Valid() && current.len + 1 + SDS_MAX_PREALLOC <= INT_MAX
    modifies current, current.buf
    ensures t == BareTurn(From(line, p))
    ensures current.Valid() && (current.buf == old(current.buf) || fresh(current.buf))
    ensures current.Contents() == if t.More? then old(current.Contents()) + t.emit else old(current.Contents())
  {
    FromAt(line, p);
    assert current.Contents() + [] == current.Contents();
    if line[p] == 0 {
      return End(0);
    } else if line[p] == SPACE || line[p] == LF || line[p] == CR || line[p] == 9 {
      return End(1);
    } else if line[p] == QUOTE {
      return More(InDouble, [], 1);
    } else if line[p] == APOSTROPHE {
      return More(InSingle, [], 1);
    }
    current.CatLen([line[p]]);
    t := More(Bare, [line[p]], 1);
  }

  /** One turn of the token loop. */
  method TakeTurn(line: bytes, p: nat, current: Sds, mode: Mode) returns (t: Turn)
    requires Line(line) && p < |line| && current.Valid() && current.len + 1 + SDS_MAX_PREALLOC <= INT_MAX
    modifies current, current.buf
    ensures t == TurnOf(From(line, p), mode)
    ensures current.Valid() && (current.buf == old(current.buf) || fresh(current.buf))
    ensures current.Contents() == if t.More? then old(current.Contents()) + t.emit else old(current.Contents())
    ensures t.More? ==> current.len <= old(current.len) + t.drop
    ensures !t.Bad? ==> p + t.drop < |line| && From(line, p)[t.drop..] == From(line, p + t.drop)
  {
    hide BareTurn, DoubleTurn, SingleTurn, Line, From;
    FromAt(line, p);
    TurnEmitsLittle(From(line, p), mode);
    match mode {
      case InDouble => t := TurnInDouble(line, p, current);
      case InSingle => t := TurnInSingle(line, p, current);
      case Bare => t := TurnBare(line, p, current);
    }
  }

  lemma TurnEmitsLittle(l: bytes, mode: Mode)
    ensures TurnOf(l, mode).More? ==> |TurnOf(l, mode).emit| <= 1 <= TurnOf(l, mode).drop
  {
  }

  lemma TokenStep(l: bytes, mode: Mode, cur: bytes)
    ensures var t := TurnOf(l, mode);
            Token(l, mode, cur) ==
              if t.Bad? then None
              else if t.End? then Some((cur, l[t.drop..]))
              else Token(l[t.drop..], t.mode, cur + t.emit)
  {
    hide TurnOf;
  }

  /** The token loop. None is the jump to err. */
  method ReadToken(line: bytes, p0: nat) returns (r: Option<bytes>, p: nat)
    requires Line(line) && p0 < |line| && |line| + SDS_MAX_PREALLOC <= INT_MAX
    ensures p < |line|
    ensures var t := Token(From(line, p0), Bare, []);
            if t.None? then r.None? else r == Some(t.value.0) && t.value.1 == From(line, p)
  {
    hide TurnOf, Token, Line, From;
    var current := new Sds([]);
    var mode := Bare;
    ghost var token := Token(From(line, p0), Bare, []);
    p := p0;
    while true
      invariant fresh(current) && fresh(current.buf) && current.Valid()
      invariant p0 <= p < |line| && current.len <= p - p0
      invariant Token(From(line, p), mode, current.Contents()) == token
      decreases |line| - p
    {
      TokenStep(From(line, p), mode, current.Contents());
      var turn := TakeTurn(line, p, current, mode);
      if turn == Bad {
        return None, p;
      }
      p := p + turn.drop;
      if turn.End? {
        return Some(current.buf[..current.len]), p;
      }
      mode := turn.mode;
    }
  }

  /** sdssplitargs. */
  method SplitArgs(line: bytes) returns (r: Option<seq<bytes>>)
    requires Line(line) && |line| + SDS_MAX_PREALLOC <= INT_MAX
    ensures r == Args(From(line, 0))
  {
    hide Token, Line, From;
    var p := 0;
    var vector: seq<bytes> := [];
    LineNonEmpty(line);
    ExtendedNil(Args(From(line, p)));
    while true
      invariant p < |line|
      invariant Extended(vector, Args(From(line, p))) == Args(From(line, 0))
      decreases |line| - p
    {
      ghost var l0 := From(line, p);
      p := SkipSpaces(line, p);
      FromAt(line, p);
      ArgsAfterBlanks(l0);
      if line[p] == 0 {
        assert vector + [] == vector;
        return Some(vector);
      }
      ghost var l := From(line, p);
      var token, p' := ReadToken(line, p);
      FromAt(line, p');
      ArgsTokenStep(l);
      if token.None? {
        return None;
      }
      ExtendedMore(vector, token.value, Args(From(line, p')));
      vector := vector + [token.value];
      p := p';
    }
  }

  ghost function Extended(vector: seq<bytes>, r: Option<seq<bytes>>): Option<seq<bytes>> {
    if r.None? then None else Some(vector + r.value)
  }

  lemma LineNonEmpty(line: bytes)
    requires Line(line)
    ensures |line| > 0
  {
  }

  lemma ExtendedNil(r: Option<seq<bytes>>)
    ensures Extended([], r) == r
  {
    if r.Some? {
      assert [] + r.value == r.value;
    }
  }

  lemma ExtendedMore(vector: seq<bytes>, t: bytes, r: Option<seq<bytes>>)
    ensures Extended(vector + [t], r) == Extended(vector, if r.None? then None else Some([t] + r.value))
  {
    if r.Some? {
      assert vector + [t] + r.value == vector + ([t] + r.value);
    }
  }

  method SkipSpaces(line: bytes, p0: nat) returns (p: nat)
    requires Line(line) && p0 < |line|
    ensures p0 <= p < |line| && From(line, p) == SkipBlanks(From(line, p0))
  {
    hide Line, From;
    p := p0;
    FromAt(line, p);
    while line[p] != 0 && IsSpace(line[p])
      invariant p0 <= p < |line| && SkipBlanks(From(line, p)) == SkipBlanks(From(line, p0))
      decreases |line| - p
    {
      FromAt(line, p);
      assert From(line, p)[1..] == From(line, p + 1);
      p := p + 1;
    }
    FromAt(line, p);
  }

  lemma {:induction false} ArgsAfterBlanks(l: bytes)
    ensures Args(l) == Args(SkipBlanks(l))
    ensures SkipBlanks(l) == [] ==> Args(l) == Some([])
    ensures SkipBlanks(SkipBlanks(l)) == SkipBlanks(l)
    decreases |l|
  {
    hide Token;
    if l != [] && IsSpace(l[0]) {
      ArgsAfterBlanks(l[1..]);
    }
  }

  lemma ArgsTokenStep(l: bytes)
    requires SkipBlanks(l) == l != []
    ensures match Token(l, Bare, [])
            case None => Args(l) == None
            case Some((t, rest)) =>
              |rest| < |l| && Args(l) == if Args(rest).None? then None else Some([t] + Args(rest).value)
  {
    hide TurnOf;
  }

  // ------------------------------------------------- quoting, then reading back

  lemma ReprLineIsLine(args: seq<bytes>)
    ensures Line(ReprLine(args) + [0]) && From(ReprLine(args) + [0], 0) == ReprLine(args)
  {
    hide ReprLine;
    ReprLineNoNul(args);
    var line := ReprLine(args) + [0];
    assert line[..|line| - 1] == ReprLine(args);
  }

  lemma {:induction false} ReprLineSnoc(args: seq<bytes>, arg: bytes)
    ensures ReprLine(args + [arg]) == ReprLine(args) + (if args == [] then [] else [SPACE]) + Repr(arg)
    decreases |args|
  {
    hide Repr;
    if args == [] {
      assert args + [arg] == [arg];
    } else {
      assert (args + [arg])[1..] == args[1..] + [arg];
      ReprLineSnoc(args[1..], arg);
      if |args| == 1 {
        assert args[1..] == [];
      }
      Assoc(Repr(args[0]), [SPACE], ReprLine(args[1..] + [arg]));
      assert ReprLine(args + [arg]) == ReprLine(args) + [SPACE] + Repr(arg);
    }
  }

  lemma {:induction false} ReprLineGrows(args: seq<bytes>, i: nat)
    requires i <= |args|
    ensures |ReprLine(args[..i])| <= |ReprLine(args)|
    decreases |args|
  {
    hide Repr;
    if i > 0 {
      assert args[..i][1..] == args[1..][..i - 1];
      ReprLineGrows(args[1..], i - 1);
    }
  }

  /** The quoted forms of a list, written one after the other with a space between them. */
  method QuoteAll(args: seq<bytes>) returns (line: Sds)
    requires |ReprLine(args)| + 1 + SDS_MAX_PREALLOC <= INT_MAX
    ensures fresh(line) && fresh(line.buf) && line.Valid() && line.Contents() == ReprLine(args)
  {
    hide Repr, ReprLine;
    line := new Sds([]);
    NothingQuoted();
    assert args[..0] == [];
    for i := 0 to |args|
      invariant line.Valid() && fresh(line) && fresh(line.buf) && line.Contents() == ReprLine(args[..i])
    {
      assert args[..i + 1] == args[..i] + [args[i]];
      ReprLineSnoc(args[..i], args[i]);
      ReprLineGrows(args, i + 1);
      if i > 0 {
        line.CatLen([SPACE]);
      } else {
        assert line.Contents() + [] == line.Contents();
      }
      CatRepr(line, args[i]);
    }
    assert args[..|args|] == args;
  }

  lemma NothingQuoted()
    ensures ReprLine([]) == []
  {
  }

  /** sdssplitargs on what sdscatrepr wrote, NUL at the end: the list comes back, whatever bytes it holds. */
  method QuoteAndSplit(args: seq<bytes>) returns (r: Option<seq<bytes>>)
    requires |ReprLine(args)| + 1 + SDS_MAX_PREALLOC <= INT_MAX
    ensures r == Some(args)
  {
    hide ReprLine, Line, From, Args;
    var line := QuoteAll(args);
    var memory := line.buf[..line.len + 1];
    assert memory == line.Contents() + [0];
    ReprLineIsLine(args);
    QuoteRoundTrip(args);
    r := SplitArgs(memory);
  }
}
