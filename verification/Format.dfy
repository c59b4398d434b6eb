/**
 redisvFormatCommand (hiredis.c): a printf-like format is cut into arguments at its own spaces. Values are
 substituted afterwards, so that no byte of a value ever ends an argument.
 */
module Format {
  import opened Bytes
  import opened SdsString
  import opened Command
  import opened Printing

  /** A variadic argument. Printed: one that vsnprintf turns into this text (%d, %08.3f, ...). */
  datatype Value = CString(mem: bytes) | Binary(mem: bytes, size: nat) | ULong(n: nat) | Printed(text: bytes)

  function StrLen(mem: bytes): (n: nat)
    requires 0 in mem
    ensures n < |mem| && mem[n] == 0 && 0 !in mem[..n]
  {
    if mem[0] == 0 then 0 else 1 + StrLen(mem[1..])
  }

  predicate Terminated(v: Value) {
    match v
    case CString(mem) => 0 in mem
    case Binary(mem, size) => size <= |mem|
    case ULong(n) => n <= ULLONG_MAX
    case Printed(_) => true
  }

  function TextOf(v: Value): bytes
    requires Terminated(v)
  {
    match v
    case CString(mem) => mem[..StrLen(mem)]
    case Binary(mem, size) => mem[..size]
    case ULong(n) => Digits(n)
    case Printed(text) => text
  }

  // -------------------------------------------------------- printf specifiers

  predicate IsFlag(c: byte) { c == 35 || c == 48 || c == 45 || c == 43 || c == 32 }              // #0-+ and space
  predicate IsDigit(c: byte) { 48 <= c <= 57 }
  predicate IsIntConversion(c: byte) { c in [100, 105, 111, 117, 120, 88] }                      // diouxX
  predicate IsFloatConversion(c: byte) { c in [101, 69, 102, 70, 103, 71, 97, 65] }              // eEfFgGaA

  function SkipFlags(f: bytes, i: nat): (j: nat)
    requires i <= |f|
    ensures i <= j <= |f|
    decreases |f| - i
  {
    if i < |f| && IsFlag(f[i]) then SkipFlags(f, i + 1) else i
  }

  function SkipDigits(f: bytes, i: nat): (j: nat)
    requires i <= |f|
    ensures i <= j <= |f|
    decreases |f| - i
  {
    if i < |f| && IsDigit(f[i]) then SkipDigits(f, i + 1) else i
  }

  /** Where flags, width and precision end. */
  function ConversionAt(f: bytes): (p: nat)
    requires |f| >= 2
    ensures 1 <= p <= |f|
  {
    var p := SkipDigits(f, SkipFlags(f, 1));
    if p < |f| && f[p] == 46 then SkipDigits(f, p + 1) else p
  }

  /** The byte at p, or the NUL that ends the format. */
  function At(f: bytes, p: nat): byte {
    if p < |f| then f[p] else 0
  }

  /** The length of the specifier that f starts with, None if the code rejects it. */
  function SpecifierLength(f: bytes): (n: Option<nat>)
    requires |f| >= 2
    ensures n.Some? ==> 2 <= n.value && (ConversionAt(f) < |f| ==> n.value <= |f|)
  {
    var p := ConversionAt(f);
    var c, d := At(f, p), At(f, p + 1);
    if IsIntConversion(c) || IsFloatConversion(c) then Some(p + 1)
    else if c == 104 && d == 104 then (if IsIntConversion(At(f, p + 2)) then Some(p + 3) else None)   // hh
    else if c == 104 then (if IsIntConversion(d) then Some(p + 2) else None)                          // h
    else if c == 108 && d == 108 then (if IsIntConversion(At(f, p + 2)) then Some(p + 3) else None)   // ll
    else if c == 108 then (if IsIntConversion(d) then Some(p + 2) else None)                          // l
    else None
  }

  // ------------------------------------------------------------------- pieces

  /** What a format consists of: spaces, which separate arguments, and text, which belongs to one. */
  datatype Piece = Space | Chars(t: bytes)

  /** The first piece of a format, the format bytes and the values that it takes. */
  datatype Token = Token(chars: nat, values: nat, piece: Piece) | BadToken

  /** The directive %c: 's' and 'b' take a value, '%' takes none, everything else is left to printf. */
  datatype Kind = Plain | Str | Bin | Percent | Printf

  function KindOf(f: bytes): Kind
    requires f != []
  {
    if f[0] != PERCENT || |f| == 1 then Plain
    else if f[1] == 115 then Str
    else if f[1] == 98 then Bin
    else if f[1] == PERCENT then Percent
    else Printf
  }

  /** The conversion %lu. */
  predicate IsLongUnsigned(f: bytes) {
    |f| >= 3 && f[1] == 108 && f[2] == 117
  }

  /** The caller passes the values that the first directive asks for, and the format does not end inside it. */
  predicate FirstFits(f: bytes, values: seq<Value>)
    requires f != []
  {
    match KindOf(f)
    case Str => values != [] && values[0].CString? && Terminated(values[0])
    case Bin => values != [] && values[0].Binary? && Terminated(values[0])
    case Printf =>
      && ConversionAt(f) < |f|
      && (SpecifierLength(f).Some? ==>
            values != [] && if IsLongUnsigned(f) then values[0].ULong? && Terminated(values[0]) else values[0].Printed?)
    case _ => true
  }

  /** A specifier of 14 bytes or more is dropped: only the percent sign and the next byte are skipped. */
  const MAX_SPECIFIER: nat := 14

  function First(f: bytes, values: seq<Value>): (t: Token)
    requires f != [] && FirstFits(f, values)
    ensures t.Token? ==> 1 <= t.chars <= |f| && t.values <= |values|
  {
    match KindOf(f)
    case Plain => Token(1, 0, if f[0] == SPACE then Space else Chars([f[0]]))
    case Percent => Token(2, 0, Chars([PERCENT]))
    case Printf =>
      (match SpecifierLength(f)
       case None => BadToken
       case Some(n) => if n < MAX_SPECIFIER then Token(n, 1, Chars(TextOf(values[0]))) else Token(2, 1, Chars([])))
    case _ => Token(2, 1, Chars(TextOf(values[0])))
  }

  /** The values fit the whole format, up to its first invalid specifier. */
  predicate Fits(f: bytes, values: seq<Value>) {
    f == [] || (FirstFits(f, values) &&
      var t := First(f, values);
      t.BadToken? || Fits(f[t.chars..], values[t.values..]))
  }

  /** All pieces, or None for an invalid format. */
  function Pieces(f: bytes, values: seq<Value>): Option<seq<Piece>>
    requires Fits(f, values)
  {
    if f == [] then Some([])
    else
      match First(f, values)
      case BadToken => None
      case Token(n, m, piece) =>
        match Pieces(f[n..], values[m..])
        case None => None
        case Some(ps) => Some([piece] + ps)
  }

  /** The bytes of all pieces, up to the first invalid specifier. */
  function TextSize(f: bytes, values: seq<Value>): nat
    requires Fits(f, values)
  {
    if f == [] then 0
    else
      match First(f, values)
      case BadToken => 0
      case Token(n, m, piece) => (if piece.Space? then 0 else |piece.t|) + TextSize(f[n..], values[m..])
  }

  // -------------------------------------------------------------------- words

  /** How many pieces come before the next space. */
  function WordLength(ps: seq<Piece>): (k: nat)
    ensures k <= |ps|
    ensures forall i :: 0 <= i < k ==> !ps[i].Space?
    ensures k < |ps| ==> ps[k].Space?
  {
    if ps == [] || ps[0].Space? then 0 else 1 + WordLength(ps[1..])
  }

  function Text(ps: seq<Piece>): bytes {
    if ps == [] then [] else (if ps[0].Space? then [] else ps[0].t) + Text(ps[1..])
  }

  /** The arguments: the texts between the runs of spaces of the format. */
  function Words(ps: seq<Piece>): seq<bytes>
    decreases |ps|
  {
    if ps == [] then []
    else if ps[0].Space? then Words(ps[1..])
    else [Text(ps[..WordLength(ps)])] + Words(ps[WordLength(ps)..])
  }

  lemma {:induction false} TextOfBoth(ps: seq<Piece>, qs: seq<Piece>)
    ensures Text(ps + qs) == Text(ps) + Text(qs)
    decreases |ps|
  {
    if ps == [] {
      assert ps + qs == qs;
    } else {
      assert (ps + qs)[1..] == ps[1..] + qs;
      TextOfBoth(ps[1..], qs);
    }
  }

  /** Nothing is lost, repeated or reordered: the arguments together are the texts of all pieces. */
  lemma {:induction false} WordsKeepText(ps: seq<Piece>)
    ensures Flatten(Words(ps)) == Text(ps)
    decreases |ps|
  {
    hide WordLength;
    if ps != [] {
      if ps[0].Space? {
        WordsKeepText(ps[1..]);
      } else {
        var k := WordLength(ps);
        assert k > 0;
        WordsKeepText(ps[k..]);
        TextOfBoth(ps[..k], ps[k..]);
        assert ps[..k] + ps[k..] == ps;
        assert ([Text(ps[..k])] + Words(ps[k..]))[1..] == Words(ps[k..]);
      }
    }
  }

  /** The same number of arguments for all values; a value may hold spaces or be empty. */
  lemma {:induction false} ArgumentCountOfFormat(f: bytes, values: seq<Value>, values': seq<Value>)
    requires Fits(f, values) && Fits(f, values')
    ensures Pieces(f, values).Some? == Pieces(f, values').Some?
    ensures Pieces(f, values).Some? ==>
              |Words(Pieces(f, values).value)| == |Words(Pieces(f, values').value)|
  {
    SamePattern(f, values, values');
    if Pieces(f, values).Some? {
      SameWordCount(Pieces(f, values).value, Pieces(f, values').value);
    }
  }

  ghost predicate SameSpaces(ps: seq<Piece>, qs: seq<Piece>) {
    |ps| == |qs| && forall i :: 0 <= i < |ps| ==> ps[i].Space? == qs[i].Space?
  }

  lemma SameFirst(f: bytes, values: seq<Value>, values': seq<Value>)
    requires f != [] && FirstFits(f, values) && FirstFits(f, values')
    ensures var t, t' := First(f, values), First(f, values');
            && t.Token? == t'.Token?
            && (t.Token? ==> t.chars == t'.chars && t.values == t'.values && t.piece.Space? == t'.piece.Space?)
  {
    hide SpecifierLength, TextOf, ConversionAt;
  }

  lemma {:induction false} SamePattern(f: bytes, values: seq<Value>, values': seq<Value>)
    requires Fits(f, values) && Fits(f, values')
    ensures Pieces(f, values).Some? == Pieces(f, values').Some?
    ensures Pieces(f, values).Some? ==> SameSpaces(Pieces(f, values).value, Pieces(f, values').value)
    decreases |f|
  {
    hide First, FirstFits;
    if f != [] {
      SameFirst(f, values, values');
      var t, t' := First(f, values), First(f, values');
      if t.Token? {
        SamePattern(f[t.chars..], values[t.values..], values'[t'.values..]);
      }
    }
  }

  lemma SameWordLength(ps: seq<Piece>, qs: seq<Piece>)
    requires SameSpaces(ps, qs)
    ensures WordLength(ps) == WordLength(qs)
  {
    var k, l := WordLength(ps), WordLength(qs);
    assert k < |ps| ==> qs[k].Space?;
    assert l < |qs| ==> ps[l].Space?;
  }

  lemma SameSpacesAfter(ps: seq<Piece>, qs: seq<Piece>, k: nat)
    requires SameSpaces(ps, qs) && k <= |ps|
    ensures SameSpaces(ps[k..], qs[k..])
  {
  }

  lemma {:induction false} SameWordCount(ps: seq<Piece>, qs: seq<Piece>)
    requires SameSpaces(ps, qs)
    ensures |Words(ps)| == |Words(qs)|
    decreases |ps|
  {
    hide Text, WordLength;
    if ps != [] {
      SameWordLength(ps, qs);
      var k := if WordLength(ps) == 0 then 1 else WordLength(ps);
      SameSpacesAfter(ps, qs, k);
      SameWordCount(ps[k..], qs[k..]);
    }
  }

  /** The arguments still to come, when the current one has been touched and holds `cur` so far. */
  function Pending(cur: bytes, touched: bool, ps: seq<Piece>): seq<bytes> {
    if touched then [cur + Text(ps[..WordLength(ps)])] + Words(ps[WordLength(ps)..]) else Words(ps)
  }

  lemma WordGrows(piece: Piece, ps: seq<Piece>)
    requires piece.Chars?
    ensures var all, k := [piece] + ps, WordLength(ps);
            WordLength(all) == k + 1 && Text(all[..k + 1]) == piece.t + Text(ps[..k]) && all[k + 1..] == ps[k..]
            && Words(all) == [Text(all[..k + 1])] + Words(all[k + 1..])
  {
    var all, k := [piece] + ps, WordLength(ps);
    assert all[1..] == ps;
    assert WordLength(all) == k + 1;
    var word := all[..k + 1];
    assert word[1..] == ps[..k];
  }

  lemma PendingStep(cur: bytes, touched: bool, piece: Piece, ps: seq<Piece>)
    requires touched || cur == []
    ensures piece.Space? && touched ==> Pending(cur, true, [piece] + ps) == [cur] + Pending([], false, ps)
    ensures piece.Space? && !touched ==> Pending(cur, false, [piece] + ps) == Pending(cur, false, ps)
    ensures piece.Chars? ==> Pending(cur, touched, [piece] + ps) == Pending(cur + piece.t, true, ps)
  {
    if piece.Chars? {
      CharsPending(cur, touched, piece, ps);
    } else {
      SpacePending(cur, touched, piece, ps);
    }
  }

  lemma CharsPending(cur: bytes, touched: bool, piece: Piece, ps: seq<Piece>)
    requires (touched || cur == []) && piece.Chars?
    ensures Pending(cur, touched, [piece] + ps) == Pending(cur + piece.t, true, ps)
  {
    hide WordLength, Text, Words;
    var k := WordLength(ps);
    WordGrows(piece, ps);
    Assoc(cur, piece.t, Text(ps[..k]));
    assert [] + piece.t == piece.t;
  }

  lemma SpacePending(cur: bytes, touched: bool, piece: Piece, ps: seq<Piece>)
    requires (touched || cur == []) && piece.Space?
    ensures touched ==> Pending(cur, true, [piece] + ps) == [cur] + Pending([], false, ps)
    ensures !touched ==> Pending(cur, false, [piece] + ps) == Pending(cur, false, ps)
  {
    var all := [piece] + ps;
    assert all[1..] == ps;
    assert WordLength(all) == 0;
    assert all[..0] == [] && all[0..] == all;
    assert cur + [] == cur;
  }

  lemma PendingEnd(cur: bytes, touched: bool)
    requires touched || cur == []
    ensures Pending(cur, touched, []) == if touched then [cur] else []
  {
    assert cur + [] == cur;
  }

  // ------------------------------------------------------------------ the code

  /** The loop over the digits of a width or a precision. */
  method PassDigits(format: bytes, c: nat, p0: nat) returns (p: nat)
    requires c <= p0 <= |format|
    ensures p0 <= p <= |format| && p - c == SkipDigits(format[c..], p0 - c)
  {
    p := p0;
    while p < |format| && IsDigit(format[p])
      invariant p0 <= p <= |format| && SkipDigits(format[c..], p - c) == SkipDigits(format[c..], p0 - c)
    {
      p := p + 1;
    }
  }

  /** The loop over the flags. */
  method PassFlags(format: bytes, c: nat, p0: nat) returns (p: nat)
    requires c <= p0 <= |format|
    ensures p0 <= p <= |format| && p - c == SkipFlags(format[c..], p0 - c)
  {
    p := p0;
    while p < |format| && IsFlag(format[p])
      invariant p0 <= p <= |format| && SkipFlags(format[c..], p - c) == SkipFlags(format[c..], p0 - c)
    {
      p := p + 1;
    }
  }

  /** The specifier loops of the default branch; None is the jump to format_err. */
  method ScanSpecifier(format: bytes, c: nat) returns (n: Option<nat>)
    requires c + 2 <= |format| && ConversionAt(format[c..]) < |format[c..]|
    ensures n == SpecifierLength(format[c..])
  {
    hide SpecifierLength, SkipFlags, SkipDigits;
    var p := PassFlags(format, c, c + 1);
    p := PassDigits(format, c, p);
    if p < |format| && format[p] == 46 {
      p := PassDigits(format, c, p + 1);
    }
    n := Conversion(format, c, p);
  }

  /** The conversion letter and its size modifiers, once flags, width and precision have been passed. */
  method Conversion(format: bytes, c: nat, p: nat) returns (n: Option<nat>)
    requires c + 2 <= |format| && c < p < |format| && p - c == ConversionAt(format[c..])
    ensures n == SpecifierLength(format[c..])
  {
    hide ConversionAt, IsIntConversion, IsFloatConversion;
    ghost var f := format[c..];
    assert At(format, p) == At(f, p - c) && At(format, p + 1) == At(f, p + 1 - c);
    assert At(format, p + 2) == At(f, p + 2 - c);
    if IsIntConversion(format[p]) {
      return Some(p + 1 - c);
    }
    if IsFloatConversion(format[p]) {
      return Some(p + 1 - c);
    }
    if format[p] == 104 && At(format, p + 1) == 104 {
      return if IsIntConversion(At(format, p + 2)) then Some(p + 3 - c) else None;
    }
    if format[p] == 104 {
      return if IsIntConversion(At(format, p + 1)) then Some(p + 2 - c) else None;
    }
    if format[p] == 108 && At(format, p + 1) == 108 {
      return if IsIntConversion(At(format, p + 2)) then Some(p + 3 - c) else None;
    }
    if format[p] == 108 {
      return if IsIntConversion(At(format, p + 1)) then Some(p + 2 - c) else None;
    }
    n := None;
  }

  /** One directive: its text is appended to the current argument. Returns the format bytes passed, or None. */
  method AppendDirective(curarg: Sds, format: bytes, c: nat, values: seq<Value>, ap: nat)
    returns (n: Option<nat>, taken: nat)
    requires c < |format| && ap <= |values| && FirstFits(format[c..], values[ap..])
    requires KindOf(format[c..]) != Plain
    requires curarg.Valid() && curarg.len + TextSizeOf(First(format[c..], values[ap..])) + SDS_MAX_PREALLOC <= INT_MAX
    modifies curarg, curarg.buf
    ensures curarg.Valid() && (curarg.buf == old(curarg.buf) || fresh(curarg.buf))
    ensures match First(format[c..], values[ap..])
            case BadToken => n.None?
            case Token(k, m, piece) => n == Some(k) && taken == m && piece.Chars? &&
                                       curarg.Contents() == old(curarg.Contents()) + piece.t
  {
    hide SpecifierLength, ConversionAt, TextOf;
    ghost var f := format[c..];
    assert f[0] == format[c] && f[1] == format[c + 1];
    assert ap < |values| ==> values[ap..][0] == values[ap];
    if format[c + 1] == 115 || format[c + 1] == 98 {
      var t := TextOf(values[ap]);
      if |t| > 0 {
        curarg.CatLen(t);
      }
      return Some(2), 1;
    } else if format[c + 1] == PERCENT {
      curarg.CatLen([PERCENT]);
      return Some(2), 0;
    }
    var l := ScanSpecifier(format, c);
    if l.None? {
      return None, 0;
    }
    if l.value < MAX_SPECIFIER {
      curarg.CatLen(TextOf(values[ap]));
      return Some(l.value), 1;
    }
    return Some(2), 1;
  }

  function TextSizeOf(t: Token): nat {
    if t.Token? && t.piece.Chars? then |t.piece.t| else 0
  }

  /** What remains to be read agrees with what the whole format means. */
  ghost predicate OnTrack(whole: Option<seq<Piece>>, rest: Option<seq<Piece>>, argv: seq<bytes>, cur: bytes,
                          touched: bool)
  {
    && whole.Some? == rest.Some?
    && (touched || cur == [])
    && (rest.Some? ==> argv + Pending(cur, touched, rest.value) == Words(whole.value))
  }

  lemma OnTrackStep(whole: Option<seq<Piece>>, f: bytes, values: seq<Value>, argv: seq<bytes>,
                    cur: bytes, touched: bool)
    requires f != [] && Fits(f, values) && OnTrack(whole, Pieces(f, values), argv, cur, touched)
    ensures First(f, values).BadToken? ==> whole.None?
    ensures First(f, values).Token? ==>
              var t := First(f, values);
              && Fits(f[t.chars..], values[t.values..])
              && TextSize(f, values) == TextSizeOf(t) + TextSize(f[t.chars..], values[t.values..])
              && (if t.piece.Chars? then OnTrack(whole, After(f, values), argv, cur + t.piece.t, true)
                  else if touched then OnTrack(whole, After(f, values), argv + [cur], [], false)
                  else OnTrack(whole, After(f, values), argv, cur, false))
  {
    hide First, FirstFits, Words, Pending;
    var t := First(f, values);
    if t.Token? && After(f, values).Some? {
      PendingStep(cur, touched, t.piece, After(f, values).value);
    }
  }

  /** The pieces after the first one. */
  function After(f: bytes, values: seq<Value>): Option<seq<Piece>>
    requires f != [] && Fits(f, values) && First(f, values).Token?
  {
    var t := First(f, values);
    Pieces(f[t.chars..], values[t.values..])
  }

  /** The end of a word: the current argument goes into argv, and its size into the total. */
  method PushArgument(argv: seq<bytes>, curarg: Sds, totlen: nat) returns (argv': seq<bytes>, totlen': nat)
    requires curarg.Valid() && totlen == |Arguments(argv)|
    ensures argv' == argv + [curarg.Contents()] && totlen' == |Arguments(argv')|
  {
    hide Argument;
    var arg := curarg.buf[..curarg.len];
    argv' := argv + [arg];
    ArgumentsSnoc(argv, arg);
    var n := BulkLen(|arg|);
    totlen' := totlen + n;
  }

  /** The scan loop: the arguments of the format and the size of their encodings, or None for a format error. */
  method ScanFormat(format: bytes, values: seq<Value>) returns (r: Option<seq<bytes>>, totlen: nat)
    requires Fits(format, values) && TextSize(format, values) + 1 + SDS_MAX_PREALLOC <= INT_MAX
    ensures match Pieces(format, values)
            case None => r.None?
            case Some(ps) => r == Some(Words(ps)) && totlen == |Arguments(Words(ps))|
  {
    hide Pieces, Fits, First, FirstFits, Words, Pending, TextSize, Arguments, KindOf;
    ghost var whole := Pieces(format, values);
    var argv: seq<bytes> := [];
    var curarg := new Sds([]);
    var c, ap, touched := 0, 0, false;
    totlen := 0;
    ScanBegins(format, values);
    while c < |format|
      invariant 0 <= c <= |format| && 0 <= ap <= |values|
      invariant fresh(curarg) && fresh(curarg.buf) && curarg.Valid()
      invariant Fits(format[c..], values[ap..])
      invariant curarg.len + TextSize(format[c..], values[ap..]) <= TextSize(format, values)
      invariant OnTrack(whole, Pieces(format[c..], values[ap..]), argv, curarg.Contents(), touched)
      invariant totlen == |Arguments(argv)|
    {
      ghost var f, vs := format[c..], values[ap..];
      FirstPiece(f, vs);
      OnTrackStep(whole, f, vs, argv, curarg.Contents(), touched);
      ghost var t := First(f, vs);
      if t.Token? {
        assert f[t.chars..] == format[c + t.chars..] && vs[t.values..] == values[ap + t.values..];
      }
      if format[c] != PERCENT || c + 1 == |format| {
        if format[c] == SPACE {
          if touched {
            argv, totlen := PushArgument(argv, curarg, totlen);
            curarg := new Sds([]);
            touched := false;
          }
        } else {
          curarg.CatLen([format[c]]);
          touched := true;
        }
        c := c + 1;
      } else {
        var n, taken := AppendDirective(curarg, format, c, values, ap);
        if n.None? {
          return None, 0;
        }
        touched := true;
        c, ap := c + n.value, ap + taken;
      }
    }
    ScanEnds(format[c..], values[ap..], argv, curarg.Contents(), touched);
    if touched {
      argv, totlen := PushArgument(argv, curarg, totlen);
    }
    r := Some(argv);
  }

  lemma ScanBegins(format: bytes, values: seq<Value>)
    requires Fits(format, values)
    ensures format[0..] == format && values[0..] == values
    ensures OnTrack(Pieces(format, values), Pieces(format, values), [], [], false)
    ensures |Arguments([])| == 0
  {
  }

  lemma ScanEnds(f: bytes, values: seq<Value>, argv: seq<bytes>, cur: bytes, touched: bool)
    requires f == [] && (touched || cur == [])
    ensures Fits(f, values) && Pieces(f, values) == Some([])
    ensures argv + Pending(cur, touched, []) == if touched then argv + [cur] else argv
  {
    PendingEnd(cur, touched);
  }

  /** What the code finds at the first byte of the rest of the format. */
  lemma FirstPiece(f: bytes, values: seq<Value>)
    requires f != [] && Fits(f, values)
    ensures FirstFits(f, values)
    ensures KindOf(f) == Plain <==> f[0] != PERCENT || |f| == 1
    ensures KindOf(f) == Plain ==> First(f, values) == Token(1, 0, if f[0] == SPACE then Space else Chars([f[0]]))
  {
  }

  /** redisvFormatCommand: -2 for an invalid format, or the command of the arguments that the format stands for. */
  method VFormatCommand(format: bytes, values: seq<Value>) returns (totlen: int, cmd: array?<byte>)
    requires Fits(format, values) && TextSize(format, values) + 1 + SDS_MAX_PREALLOC <= INT_MAX
    ensures match Pieces(format, values)
            case None => totlen == -2 && cmd == null
            case Some(ps) =>
              && cmd != null && fresh(cmd) && totlen == |Formatted(Words(ps))| && cmd.Length == totlen + 1
              && cmd[..totlen] == Formatted(Words(ps)) && cmd[totlen] == 0
  {
    hide Pieces, Fits, Words, Formatted, Arguments, TextSize;
    var r, size := ScanFormat(format, values);
    if r.None? {
      return -2, null;
    }
    FormattedParts(r.value);
    var digits := CountDigits(|r.value|);
    totlen := size + 1 + digits + 2;
    cmd := Build(r.value, totlen);
  }
}
