/**
 What formats mean, told from how they are put together: words made of literal bytes and directives, with spaces
 between them, stand for the arguments that these words spell.
 */
module FormatWords {
  import opened Bytes
  import opened Format

  /** A printf specifier without its percent sign: "-08.3" "l" "d". */
  datatype Spec = Spec(flags: bytes, width: bytes, precision: Option<bytes>, modifier: bytes, conversion: byte)

  /** A part of a format, with the memory that is passed for it. */
  datatype Part =
    | Gap                              // a space
    | Literal(c: byte)                 // any other byte; a percent sign only at the end
    | PercentSign                      // %%
    | Str(s: bytes, behind: bytes)     // %s of a string that ends in a NUL, with any bytes behind it
    | Bin(s: bytes, behind: bytes)     // %b of the first bytes of some memory
    | Long(n: nat)                     // %lu
    | Print(spec: Spec, text: bytes)   // any other specifier, printed as this text

  const FLAGS: bytes := [35, 48, 45, 43, 32]                                             // "#0-+ "
  const DIGITS: bytes := [48, 49, 50, 51, 52, 53, 54, 55, 56, 57]
  const INTS: bytes := [100, 105, 111, 117, 120, 88]                                     // "diouxX"
  const FLOATS: bytes := [101, 69, 102, 70, 103, 71, 97, 65]                             // "eEfFgGaA"

  /** The room for a specifier in the code, two bytes of which stay free. */
  const FORMAT_SIZE: nat := 16

  const DOT: byte := 46
  const H: byte := 104
  const L: byte := 108

  predicate GoodSpec(x: Spec) {
    && (forall i :: 0 <= i < |x.flags| ==> x.flags[i] in FLAGS)
    && (forall i :: 0 <= i < |x.width| ==> x.width[i] in DIGITS)
    && (x.width != [] ==> x.width[0] !in FLAGS)
    && (x.precision.Some? ==> forall i :: 0 <= i < |x.precision.value| ==> x.precision.value[i] in DIGITS)
    && x.modifier in [[], [H], [H, H], [L], [L, L]]
    && (x.conversion in INTS || (x.modifier == [] && x.conversion in FLOATS))
  }

  function PrecisionText(x: Spec): bytes {
    if x.precision.Some? then [DOT] + x.precision.value else []
  }

  /** Flags, width and precision. */
  function Front(x: Spec): bytes {
    x.flags + (x.width + PrecisionText(x))
  }

  function SpecText(x: Spec): bytes {
    [PERCENT] + (Front(x) + (x.modifier + [x.conversion]))
  }

  predicate GoodPart(p: Part, last: bool) {
    match p
    case Literal(c) => c != SPACE && (c != PERCENT || last)
    case Str(s, _) => 0 !in s
    case Long(n) => n <= ULLONG_MAX
    case Print(x, _) =>
      GoodSpec(x) && |SpecText(x)| < FORMAT_SIZE - 2 && !(Front(x) == [] && x.modifier == [L] && x.conversion == 117)
    case _ => true
  }

  function SpelledPart(p: Part): (f: bytes)
    ensures f != []
  {
    match p
    case Gap => [SPACE]
    case Literal(c) => [c]
    case PercentSign => [PERCENT, PERCENT]
    case Str(_, _) => [PERCENT, 115]
    case Bin(_, _) => [PERCENT, 98]
    case Long(_) => [PERCENT, L, 117]
    case Print(x, _) => SpecText(x)
  }

  function ValuesOfPart(p: Part): seq<Value> {
    match p
    case Str(s, behind) => [CString(s + ([0] + behind))]
    case Bin(s, behind) => [Binary(s + behind, |s|)]
    case Long(n) => [ULong(n)]
    case Print(_, text) => [Printed(text)]
    case _ => []
  }

  function TextOfPart(p: Part): bytes {
    match p
    case Gap => []
    case Literal(c) => [c]
    case PercentSign => [PERCENT]
    case Str(s, _) => s
    case Bin(s, _) => s
    case Long(n) => Digits(n)
    case Print(_, text) => text
  }

  function PieceOf(p: Part): Piece {
    if p.Gap? then Space else Chars(TextOfPart(p))
  }

  predicate GoodParts(ps: seq<Part>) {
    forall i :: 0 <= i < |ps| ==> GoodPart(ps[i], i == |ps| - 1)
  }

  function Spelled(ps: seq<Part>): bytes {
    if ps == [] then [] else SpelledPart(ps[0]) + Spelled(ps[1..])
  }

  function ValuesOf(ps: seq<Part>): seq<Value> {
    if ps == [] then [] else ValuesOfPart(ps[0]) + ValuesOf(ps[1..])
  }

  function PiecesOf(ps: seq<Part>): seq<Piece> {
    seq(|ps|, i requires 0 <= i < |ps| => PieceOf(ps[i]))
  }

  // ---------------------------------------------------------------- specifiers

  lemma Letters(c: byte)
    ensures IsFlag(c) <==> c in FLAGS
    ensures IsDigit(c) <==> c in DIGITS
    ensures IsIntConversion(c) <==> c in INTS
    ensures IsFloatConversion(c) <==> c in FLOATS
  {
  }

  lemma {:induction false} SkipFlagsExactly(f: bytes, i: nat, flags: bytes)
    requires i <= |f| && flags <= f[i..]
    requires forall k :: 0 <= k < |flags| ==> flags[k] in FLAGS
    requires i + |flags| < |f| ==> f[i + |flags|] !in FLAGS
    ensures SkipFlags(f, i) == i + |flags|
    decreases |flags|
  {
    if i < |f| {
      Letters(f[i]);
    }
    if flags != [] {
      assert f[i] == f[i..][0] == flags[0];
      assert f[i + 1..] == f[i..][1..];
      SkipFlagsExactly(f, i + 1, flags[1..]);
    }
  }

  lemma {:induction false} SkipDigitsExactly(f: bytes, i: nat, digits: bytes)
    requires i <= |f| && digits <= f[i..]
    requires forall k :: 0 <= k < |digits| ==> digits[k] in DIGITS
    requires i + |digits| < |f| ==> f[i + |digits|] !in DIGITS
    ensures SkipDigits(f, i) == i + |digits|
    decreases |digits|
  {
    if i < |f| {
      Letters(f[i]);
    }
    if digits != [] {
      assert f[i] == f[i..][0] == digits[0];
      assert f[i + 1..] == f[i..][1..];
      SkipDigitsExactly(f, i + 1, digits[1..]);
    }
  }

  /** What may follow flags, width and precision without being one more byte of these. */
  predicate Follows(x: Spec, c: byte) {
    && c !in DIGITS
    && (x.precision.None? ==> c != DOT && (x.width == [] ==> c !in FLAGS))
  }

  lemma Behind(f: bytes, i: nat, x: bytes, t: bytes)
    requires i <= |f| && f[i..] == x + t
    ensures i + |x| <= |f| && x <= f[i..] && f[i + |x|..] == t
    ensures t != [] ==> i + |x| < |f| && f[i + |x|] == t[0]
  {
    assert f[i + |x|..] == f[i..][|x|..];
    assert t != [] ==> f[i + |x|] == f[i..][|x|];
  }

  /** Flags, width and precision are passed, whatever follows. */
  lemma ConversionAtExactly(x: Spec, t: bytes)
    requires GoodSpec(x) && t != [] && Follows(x, t[0])
    ensures |[PERCENT] + (Front(x) + t)| >= 2 && ConversionAt([PERCENT] + (Front(x) + t)) == 1 + |Front(x)|
  {
    hide SkipFlags, SkipDigits, ConversionAt, Front, PrecisionText;
    var f := [PERCENT] + (Front(x) + t);
    FrontParts(x, t);
    var rest := x.width + (PrecisionText(x) + t);
    assert f[1..] == x.flags + rest;
    var a := 1 + |x.flags|;
    var b := a + |x.width|;
    Behind(f, 1, x.flags, rest);
    Behind(f, a, x.width, PrecisionText(x) + t);
    BehindWidth(x, t);
    SkipFlagsExactly(f, 1, x.flags);
    SkipDigitsExactly(f, a, x.width);
    PrecisionPassed(x, f, b, t);
    PassedAll(f, a, b, b + |PrecisionText(x)|);
  }

  lemma BehindWidth(x: Spec, t: bytes)
    requires GoodSpec(x) && t != [] && Follows(x, t[0])
    ensures var rest := x.width + (PrecisionText(x) + t);
            rest[0] !in FLAGS && PrecisionText(x) + t != [] && (PrecisionText(x) + t)[0] !in DIGITS
  {
    var rest := x.width + (PrecisionText(x) + t);
    assert rest[0] == if x.width == [] then (PrecisionText(x) + t)[0] else x.width[0];
    assert (PrecisionText(x) + t)[0] == if x.precision.Some? then DOT else t[0];
  }

  lemma PrecisionPassed(x: Spec, f: bytes, b: nat, t: bytes)
    requires GoodSpec(x) && t != [] && Follows(x, t[0]) && b < |f| && f[b..] == PrecisionText(x) + t
    ensures if f[b] == DOT then SkipDigits(f, b + 1) == b + |PrecisionText(x)| else PrecisionText(x) == []
  {
    hide SkipDigits;
    if x.precision.Some? {
      assert PrecisionText(x) + t == [DOT] + (x.precision.value + t);
      Behind(f, b, [DOT], x.precision.value + t);
      Behind(f, b + 1, x.precision.value, t);
      SkipDigitsExactly(f, b + 1, x.precision.value);
    } else {
      Behind(f, b, [], t);
    }
  }

  lemma PassedAll(f: bytes, a: nat, b: nat, c: nat)
    requires |f| >= 2 && a <= |f| && SkipFlags(f, 1) == a && SkipDigits(f, a) == b < |f|
    requires if f[b] == DOT then SkipDigits(f, b + 1) == c else b == c
    ensures ConversionAt(f) == c
  {
  }

  lemma FrontParts(x: Spec, t: bytes)
    ensures Front(x) + t == x.flags + (x.width + (PrecisionText(x) + t))
    ensures |Front(x)| == |x.flags| + |x.width| + |PrecisionText(x)|
  {
  }

  lemma AtBehind(x: Spec, t: bytes, k: nat)
    ensures At([PERCENT] + (Front(x) + t), 1 + |Front(x)| + k) == At(t, k)
  {
    var f := [PERCENT] + (Front(x) + t);
    assert f[1 + |Front(x)|..] == t;
    if k < |t| {
      assert f[1 + |Front(x)| + k] == f[1 + |Front(x)|..][k];
    }
  }

  /** Where the modifier and the conversion letter are. */
  lemma TailOfSpec(x: Spec, t: bytes)
    requires |x.modifier| <= 2
    ensures var tail := x.modifier + [x.conversion] + t;
            && SpecText(x) + t == [PERCENT] + (Front(x) + tail)
            && |SpecText(x)| == 1 + |Front(x)| + |x.modifier| + 1
            && |tail| > |x.modifier| && At(tail, |x.modifier|) == x.conversion
            && (forall k :: 0 <= k < |x.modifier| ==> At(tail, k) == x.modifier[k])
  {
    hide Front;
    var tail := x.modifier + [x.conversion] + t;
    assert tail == x.modifier + ([x.conversion] + t);
    assert Front(x) + (x.modifier + [x.conversion]) + t == Front(x) + tail;
  }

  /** Every specifier of this form is taken as one, whole. */
  lemma SpecifierExactly(x: Spec, t: bytes)
    requires GoodSpec(x)
    ensures var f := SpecText(x) + t;
            |f| >= 2 && ConversionAt(f) < |f| && SpecifierLength(f) == Some(|SpecText(x)|)
  {
    hide ConversionAt, Front, SpecText, At;
    var tail := x.modifier + [x.conversion] + t;
    TailOfSpec(x, t);
    FirstOfTail(x, tail);
    ConversionAtExactly(x, tail);
    AtBehind(x, tail, 0);
    AtBehind(x, tail, 1);
    AtBehind(x, tail, 2);
  }

  lemma FirstOfTail(x: Spec, tail: bytes)
    requires GoodSpec(x) && tail != [] && tail[0] == if x.modifier == [] then x.conversion else x.modifier[0]
    ensures At(tail, 0) == tail[0] && Follows(x, tail[0])
  {
    hide Follows;
    ConversionFollows(x, tail[0]);
  }

  lemma ConversionFollows(x: Spec, c: byte)
    requires c in INTS || c in FLOATS || c == H || c == L
    ensures Follows(x, c)
  {
    if c in DIGITS || c in FLAGS || c == DOT {
      assert false;
    }
  }

  /** No conversion: another byte, or a size modifier that no integer conversion follows. */
  predicate NoConversion(t: bytes) {
    && t != [] && t[0] !in INTS && t[0] !in FLOATS
    && (t[0] == H || t[0] == L ==> At(t, if At(t, 1) == t[0] then 2 else 1) !in INTS)
  }

  /** And whatever else follows the percent sign is rejected. */
  lemma SpecifierRejected(x: Spec, t: bytes)
    requires GoodSpec(x) && NoConversion(t) && Follows(x, t[0])
    ensures var f := [PERCENT] + (Front(x) + t);
            |f| >= 2 && ConversionAt(f) < |f| && SpecifierLength(f) == None
  {
    hide ConversionAt;
    ConversionAtExactly(x, t);
    AtBehind(x, t, 0);
    AtBehind(x, t, 1);
    AtBehind(x, t, 2);
  }

  // --------------------------------------------------------------- whole formats

  lemma StrLenExactly(s: bytes, behind: bytes)
    requires 0 !in s
    ensures 0 in s + ([0] + behind) && StrLen(s + ([0] + behind)) == |s|
  {
    var mem := s + ([0] + behind);
    assert mem[|s|] == 0;
  }

  lemma FrontBegins(x: Spec)
    requires GoodSpec(x) && Front(x) != []
    ensures Front(x)[0] in FLAGS || Front(x)[0] in DIGITS || Front(x)[0] == DOT
  {
    var rest := x.width + PrecisionText(x);
    if x.flags == [] {
      assert Front(x) == rest;
      assert rest[0] == if x.width != [] then x.width[0] else DOT;
    } else {
      assert Front(x)[0] == x.flags[0];
    }
  }

  /** What comes behind the percent sign. */
  lemma BehindPercent(x: Spec, t: bytes)
    requires GoodSpec(x) && t != []
    ensures var f := [PERCENT] + (Front(x) + t);
            && f[0] == PERCENT && |f| >= 2
            && (Front(x) == [] ==> f[1..] == t && f[1] == t[0])
            && (Front(x) != [] ==> f[1] in FLAGS || f[1] in DIGITS || f[1] == DOT)
  {
    hide Front, GoodSpec;
    var f := [PERCENT] + (Front(x) + t);
    assert f[1..] == Front(x) + t;
    if Front(x) == [] {
      assert Front(x) + t == t;
    } else {
      FrontBegins(x);
      assert f[1] == Front(x)[0];
    }
  }

  /** The letter behind the percent sign of a specifier. */
  lemma SpecBegins(x: Spec, t: bytes)
    requires GoodSpec(x)
    ensures var f := SpecText(x) + t;
            && |SpecText(x)| >= 2 && f[0] == PERCENT && f[1] != 115 && f[1] != 98 && f[1] != PERCENT
            && (IsLongUnsigned(f) ==> Front(x) == [] && x.modifier == [L] && x.conversion == 117)
  {
    hide Front, SpecText;
    var tail := x.modifier + [x.conversion] + t;
    TailOfSpec(x, t);
    BehindPercent(x, tail);
    var f := [PERCENT] + (Front(x) + tail);
    if Front(x) == [] {
      assert tail[0] == At(tail, 0);
      assert |tail| > 1 ==> f[2] == tail[1] == At(tail, 1);
    }
  }

  lemma KindExactly(p: Part, t: bytes)
    requires GoodPart(p, t == [])
    ensures KindOf(SpelledPart(p) + t) ==
              match p
              case Str(_, _) => Format.Kind.Str
              case Bin(_, _) => Format.Kind.Bin
              case PercentSign => Percent
              case Long(_) => Printf
              case Print(_, _) => Printf
              case _ => Plain
  {
    hide GoodSpec, SpecText;
    if p.Print? {
      SpecBegins(p.spec, t);
    }
  }

  /** Each part is one step of the scan: all of it, all of its values, and its text. */
  lemma PartExactly(p: Part, t: bytes, vs: seq<Value>)
    requires GoodPart(p, t == [])
    ensures var f, all := SpelledPart(p) + t, ValuesOfPart(p) + vs;
            FirstFits(f, all) && First(f, all) == Token(|SpelledPart(p)|, |ValuesOfPart(p)|, PieceOf(p))
  {
    hide KindOf, SpecifierLength, ConversionAt, GoodSpec, SpecText, FirstFits, First;
    match p
    case Long(n) =>
      LongSpelled(t);
      PrintExactly(LongSpec, ULong(n), t, vs);
    case Print(x, text) =>
      SpecBegins(x, t);
      PrintExactly(x, Printed(text), t, vs);
    case _ => TextExactly(p, t, vs);
  }

  lemma TextExactly(p: Part, t: bytes, vs: seq<Value>)
    requires GoodPart(p, t == []) && !p.Long? && !p.Print?
    ensures var f, all := SpelledPart(p) + t, ValuesOfPart(p) + vs;
            FirstFits(f, all) && First(f, all) == Token(|SpelledPart(p)|, |ValuesOfPart(p)|, PieceOf(p))
  {
    hide KindOf, StrLen, Terminated, TextOf;
    KindExactly(p, t);
    match p
    case Str(s, behind) => StrExactly(s, behind);
    case Bin(s, behind) => BinExactly(s, behind);
    case _ =>
  }

  lemma BinExactly(s: bytes, behind: bytes)
    ensures Terminated(Binary(s + behind, |s|)) && TextOf(Binary(s + behind, |s|)) == s
  {
  }

  lemma PrintExactly(x: Spec, v: Value, t: bytes, vs: seq<Value>)
    requires GoodSpec(x) && |SpecText(x)| < FORMAT_SIZE - 2 && Terminated(v)
    requires if IsLongUnsigned(SpecText(x) + t) then v.ULong? else v.Printed?
    ensures var f, all := SpecText(x) + t, [v] + vs;
            FirstFits(f, all) && First(f, all) == Token(|SpecText(x)|, 1, Chars(TextOf(v)))
  {
    hide SpecifierLength, ConversionAt, GoodSpec, SpecText;
    SpecBegins(x, t);
    SpecifierExactly(x, t);
  }

  const LongSpec := Spec([], [], None, [L], 117)

  lemma LongSpelled(t: bytes)
    ensures GoodSpec(LongSpec) && SpecText(LongSpec) == [PERCENT, L, 117] && IsLongUnsigned([PERCENT, L, 117] + t)
  {
    hide GoodSpec;
    assert Front(LongSpec) == [];
    assert SpecText(LongSpec) == [PERCENT] + ([] + ([L] + [117]));
    LongConversion();
  }

  lemma LongConversion()
    ensures GoodSpec(LongSpec)
  {
    assert LongSpec.conversion == INTS[3];
  }

  lemma StrExactly(s: bytes, behind: bytes)
    requires 0 !in s
    ensures Terminated(CString(s + ([0] + behind))) && TextOf(CString(s + ([0] + behind))) == s
  {
    StrLenExactly(s, behind);
  }

  /** The scan takes the parts one by one, and goes on behind them. */
  lemma {:induction false} PartsExactly(ps: seq<Part>, f: bytes, vs: seq<Value>)
    requires Fits(f, vs) && forall i :: 0 <= i < |ps| ==> GoodPart(ps[i], i == |ps| - 1 && f == [])
    ensures Fits(Spelled(ps) + f, ValuesOf(ps) + vs)
    ensures Pieces(Spelled(ps) + f, ValuesOf(ps) + vs) == Joined(PiecesOf(ps), Pieces(f, vs))
    decreases |ps|
  {
    hide SpelledPart, ValuesOfPart, PieceOf, GoodPart, First, FirstFits, Fits, Pieces, PiecesOf, Joined;
    if ps == [] {
      assert Spelled(ps) + f == f && ValuesOf(ps) + vs == vs;
      NoPieces(Pieces(f, vs));
    } else {
      var rest, others := Spelled(ps[1..]) + f, ValuesOf(ps[1..]) + vs;
      var p, n, m := ps[0], |SpelledPart(ps[0])|, |ValuesOfPart(ps[0])|;
      LastPart(ps, f);
      PartExactly(p, rest, others);
      PartsExactly(ps[1..], f, vs);
      SpelledFirst(ps, f, vs);
      var all, values := Spelled(ps) + f, ValuesOf(ps) + vs;
      FirstThenRest(all, values);
      OnePieceMore(ps, Pieces(f, vs));
    }
  }

  /** Pieces, and behind them those of a format that may be invalid. */
  function Joined(ps: seq<Piece>, qs: Option<seq<Piece>>): Option<seq<Piece>> {
    if qs.Some? then Some(ps + qs.value) else None
  }

  lemma NoPieces(qs: Option<seq<Piece>>)
    ensures Joined(PiecesOf([]), qs) == qs
  {
    assert qs.Some? ==> PiecesOf([]) + qs.value == qs.value;
  }

  lemma OnePieceMore(ps: seq<Part>, qs: Option<seq<Piece>>)
    requires ps != []
    ensures Joined(PiecesOf(ps), qs) == Joined([PieceOf(ps[0])], Joined(PiecesOf(ps[1..]), qs))
  {
    hide PieceOf;
    assert PiecesOf(ps) == [PieceOf(ps[0])] + PiecesOf(ps[1..]);
    if qs.Some? {
      assert [PieceOf(ps[0])] + (PiecesOf(ps[1..]) + qs.value) == PiecesOf(ps) + qs.value;
    }
  }

  lemma LastPart(ps: seq<Part>, f: bytes)
    requires ps != []
    ensures Spelled(ps[1..]) + f == [] <==> |ps| == 1 && f == []
  {
    hide SpelledPart;
    assert |ps| > 1 ==> Spelled(ps[1..]) != [];
  }

  lemma SpelledFirst(ps: seq<Part>, f: bytes, vs: seq<Value>)
    requires ps != []
    ensures var all, values := Spelled(ps) + f, ValuesOf(ps) + vs;
            var n, m := |SpelledPart(ps[0])|, |ValuesOfPart(ps[0])|;
            && all == SpelledPart(ps[0]) + (Spelled(ps[1..]) + f) && all[n..] == Spelled(ps[1..]) + f
            && values == ValuesOfPart(ps[0]) + (ValuesOf(ps[1..]) + vs) && values[m..] == ValuesOf(ps[1..]) + vs
  {
    hide SpelledPart, ValuesOfPart;
    Assoc(SpelledPart(ps[0]), Spelled(ps[1..]), f);
    Dropped(SpelledPart(ps[0]), Spelled(ps[1..]) + f);
    ValuesRegroup(ValuesOfPart(ps[0]), ValuesOf(ps[1..]), vs);
  }

  lemma Dropped(a: bytes, b: bytes)
    ensures (a + b)[|a|..] == b
  {
  }

  lemma ValuesRegroup(a: seq<Value>, b: seq<Value>, c: seq<Value>)
    ensures a + b + c == a + (b + c) && (a + (b + c))[|a|..] == b + c
  {
  }

  lemma FirstThenRest(f: bytes, values: seq<Value>)
    requires f != [] && FirstFits(f, values) && First(f, values).Token?
    requires Fits(f[First(f, values).chars..], values[First(f, values).values..])
    ensures var t := First(f, values);
            var rest := Pieces(f[t.chars..], values[t.values..]);
            && Fits(f, values)
            && Pieces(f, values) == Joined([t.piece], rest)
  {
    hide First, FirstFits;
  }

  /** Every format that is put together from parts is valid, and its pieces are the texts of these. */
  lemma FormatExactly(ps: seq<Part>)
    requires GoodParts(ps)
    ensures Fits(Spelled(ps), ValuesOf(ps)) && Pieces(Spelled(ps), ValuesOf(ps)) == Some(PiecesOf(ps))
  {
    PartsExactly(ps, [], []);
    assert Spelled(ps) + [] == Spelled(ps) && ValuesOf(ps) + [] == ValuesOf(ps);
    assert PiecesOf(ps) + [] == PiecesOf(ps);
  }

  /** A specifier without a conversion makes the whole format invalid, whatever comes before and after it. */
  lemma InvalidExactly(ps: seq<Part>, x: Spec, t: bytes, vs: seq<Value>)
    requires forall i :: 0 <= i < |ps| ==> GoodPart(ps[i], false)
    requires GoodSpec(x) && NoConversion(t) && Follows(x, t[0])
    requires Front(x) == [] ==> t[0] != 115 && t[0] != 98 && t[0] != PERCENT
    ensures var f := Spelled(ps) + ([PERCENT] + (Front(x) + t));
            Fits(f, ValuesOf(ps) + vs) && Pieces(f, ValuesOf(ps) + vs) == None
  {
    hide GoodPart, SpecifierLength, ConversionAt;
    SpecifierRejected(x, t);
    RejectedIsPrintf(x, t);
    PartsExactly(ps, [PERCENT] + (Front(x) + t), vs);
  }

  lemma RejectedIsPrintf(x: Spec, t: bytes)
    requires GoodSpec(x) && t != [] && (Front(x) == [] ==> t[0] != 115 && t[0] != 98 && t[0] != PERCENT)
    ensures KindOf([PERCENT] + (Front(x) + t)) == Printf
  {
    hide Front;
    BehindPercent(x, t);
  }

  /** A specifier of 14 bytes or more: its value is dropped, and its bytes behind the first two are text. */
  lemma LongSpecifierIsText(x: Spec, text: bytes, f: bytes, vs: seq<Value>)
    requires GoodSpec(x) && |SpecText(x)| >= FORMAT_SIZE - 2 && Fits(SpecText(x)[2..] + f, vs)
    ensures var rest := Pieces(SpecText(x)[2..] + f, vs);
            && Fits(SpecText(x) + f, [Printed(text)] + vs)
            && Pieces(SpecText(x) + f, [Printed(text)] + vs) == Joined([Chars([])], rest)
  {
    hide SpecifierLength, ConversionAt, SpecText, Front;
    var all, values := SpecText(x) + f, [Printed(text)] + vs;
    SpecBegins(x, f);
    TailOfSpec(x, f);
    SpecifierExactly(x, f);
    assert all[2..] == SpecText(x)[2..] + f && values[1..] == vs;
    FirstThenRest(all, values);
  }

  // --------------------------------------------------------------------- words

  /** Words with runs of spaces before, between and behind them. */
  function Layout(words: seq<seq<Part>>, gaps: seq<nat>): seq<Part>
    requires |gaps| == |words| + 1
  {
    seq(gaps[0], _ => Gap) + if words == [] then [] else words[0] + Layout(words[1..], gaps[1..])
  }

  predicate GoodWord(word: seq<Part>) {
    word != [] && forall i :: 0 <= i < |word| ==> !word[i].Gap? && GoodPart(word[i], false)
  }

  predicate GoodLayout(words: seq<seq<Part>>, gaps: seq<nat>) {
    && |gaps| == |words| + 1
    && (forall i :: 0 <= i < |words| ==> GoodWord(words[i]))
    && (forall i :: 0 < i < |words| ==> gaps[i] > 0)
  }

  function WordText(word: seq<Part>): bytes {
    if word == [] then [] else TextOfPart(word[0]) + WordText(word[1..])
  }

  function WordTexts(words: seq<seq<Part>>): seq<bytes> {
    seq(|words|, i requires 0 <= i < |words| => WordText(words[i]))
  }

  lemma {:induction false} SpacesSkipped(n: nat, ps: seq<Piece>)
    ensures Words(seq(n, _ => Space) + ps) == Words(ps)
  {
    var spaces := seq(n, _ => Space);
    if n == 0 {
      assert spaces + ps == ps;
    } else {
      assert (spaces + ps)[1..] == seq(n - 1, _ => Space) + ps;
      SpacesSkipped(n - 1, ps);
    }
  }

  lemma WordTaken(word: seq<Piece>, ps: seq<Piece>)
    requires word != [] && (forall i :: 0 <= i < |word| ==> word[i].Chars?) && (ps != [] ==> ps[0].Space?)
    ensures Words(word + ps) == [Text(word)] + Words(ps)
  {
    hide Text;
    var all := word + ps;
    var k := WordLength(all);
    assert k < |all| ==> all[k].Space?;
    assert ps != [] ==> all[|word|] == ps[0];
    assert forall i :: 0 <= i < |word| ==> all[i] == word[i];
    assert k == |word|;
    assert all[..k] == word && all[k..] == ps;
  }

  lemma {:induction false} TextOfWord(word: seq<Part>)
    requires forall i :: 0 <= i < |word| ==> !word[i].Gap?
    ensures Text(PiecesOf(word)) == WordText(word)
  {
    hide TextOfPart;
    if word != [] {
      assert PiecesOf(word) == [PieceOf(word[0])] + PiecesOf(word[1..]);
      TextOfWord(word[1..]);
    }
  }

  lemma PiecesOfBoth(ps: seq<Part>, qs: seq<Part>)
    ensures PiecesOf(ps + qs) == PiecesOf(ps) + PiecesOf(qs)
  {
    hide PieceOf;
  }

  lemma GapPieces(n: nat)
    ensures PiecesOf(seq(n, _ => Gap)) == seq(n, _ => Space)
  {
  }

  lemma {:induction false} WordsOfLayout(words: seq<seq<Part>>, gaps: seq<nat>)
    requires GoodLayout(words, gaps)
    ensures Words(PiecesOf(Layout(words, gaps))) == WordTexts(words)
    decreases |words|
  {
    hide Words, Text, WordText, GoodPart, PiecesOf;
    var spaces: seq<Part> := seq(gaps[0], _ => Gap);
    GapPieces(gaps[0]);
    if words == [] {
      assert Layout(words, gaps) == spaces;
      SpacesSkipped(gaps[0], []);
      assert PiecesOf(spaces) + [] == PiecesOf(spaces);
      NoWords();
    } else {
      var w, others := words[0], Layout(words[1..], gaps[1..]);
      PiecesOfBoth(spaces, w + others);
      PiecesOfBoth(w, others);
      SpacesSkipped(gaps[0], PiecesOf(w) + PiecesOf(others));
      WordPieces(w);
      LayoutBegins(words[1..], gaps[1..]);
      WordTaken(PiecesOf(w), PiecesOf(others));
      TextOfWord(w);
      WordsOfLayout(words[1..], gaps[1..]);
      assert WordTexts(words) == [WordText(w)] + WordTexts(words[1..]);
    }
  }

  lemma NoWords()
    ensures Words([]) == []
  {
  }

  lemma WordPieces(word: seq<Part>)
    requires GoodWord(word)
    ensures PiecesOf(word) != [] && forall i :: 0 <= i < |PiecesOf(word)| ==> PiecesOf(word)[i].Chars?
  {
    hide TextOfPart;
  }

  lemma LayoutBegins(words: seq<seq<Part>>, gaps: seq<nat>)
    requires |gaps| == |words| + 1 && (words == [] || gaps[0] > 0)
    ensures var ps := PiecesOf(Layout(words, gaps));
            ps != [] ==> ps[0].Space?
  {
  }

  /** Parts of which any may be followed by more. */
  ghost predicate Inner(ps: seq<Part>) {
    forall i :: 0 <= i < |ps| ==> GoodPart(ps[i], false)
  }

  lemma InnerOfBoth(ps: seq<Part>, qs: seq<Part>)
    requires Inner(ps) && Inner(qs)
    ensures Inner(ps + qs)
  {
    hide GoodPart;
  }

  lemma InnerIsGood(ps: seq<Part>)
    requires Inner(ps)
    ensures GoodParts(ps)
  {
    forall i | 0 <= i < |ps| ensures GoodPart(ps[i], i == |ps| - 1) {
      assert GoodPart(ps[i], false);
    }
  }

  lemma GapsAreInner(n: nat)
    ensures Inner(seq(n, _ => Gap))
  {
  }

  lemma {:induction false} LayoutIsInner(words: seq<seq<Part>>, gaps: seq<nat>)
    requires GoodLayout(words, gaps)
    ensures Inner(Layout(words, gaps))
    decreases |words|
  {
    hide GoodPart, Inner;
    var spaces: seq<Part> := seq(gaps[0], _ => Gap);
    GapsAreInner(gaps[0]);
    if words == [] {
      assert spaces + [] == spaces;
    } else {
      WordIsInner(words[0]);
      LayoutIsInner(words[1..], gaps[1..]);
      InnerOfBoth(words[0], Layout(words[1..], gaps[1..]));
      InnerOfBoth(spaces, words[0] + Layout(words[1..], gaps[1..]));
    }
  }

  lemma WordIsInner(word: seq<Part>)
    requires GoodWord(word)
    ensures Inner(word)
  {
  }

  /**
   The arguments of a format are its words, each of them the texts of its parts one behind the other. Which bytes a
   value holds makes no difference: spaces and percent signs in it are text, and an empty one makes an empty argument.
   */
  lemma ArgumentsOfLayout(words: seq<seq<Part>>, gaps: seq<nat>)
    requires GoodLayout(words, gaps)
    ensures var ps := Layout(words, gaps);
            && Fits(Spelled(ps), ValuesOf(ps))
            && Pieces(Spelled(ps), ValuesOf(ps)).Some?
            && Words(Pieces(Spelled(ps), ValuesOf(ps)).value) == WordTexts(words)
  {
    hide Fits, Pieces, Words, Spelled, ValuesOf, WordTexts, Layout, Inner;
    LayoutIsInner(words, gaps);
    InnerIsGood(Layout(words, gaps));
    FormatExactly(Layout(words, gaps));
    WordsOfLayout(words, gaps);
  }

  // ----------------------------------------------- agreement with an argument list

  /** Parts with a single space between any two. */
  function SpacedOut(ps: seq<Part>): bytes {
    if ps == [] then []
    else if |ps| == 1 then SpelledPart(ps[0])
    else SpelledPart(ps[0]) + ([SPACE] + SpacedOut(ps[1..]))
  }

  function OneEach(ps: seq<Part>): seq<seq<Part>> {
    seq(|ps|, i requires 0 <= i < |ps| => [ps[i]])
  }

  /** No space before and behind, one between any two of n words; or one before them as well. */
  function SingleGaps(first: nat, n: nat): (gaps: seq<nat>)
    ensures |gaps| == n + 1
    ensures forall i :: 0 < i < n ==> gaps[i] == 1
    decreases n
  {
    if n == 0 then [0] else [first] + SingleGaps(1, n - 1)
  }

  lemma {:induction false} SpacedOutLayout(ps: seq<Part>, first: nat)
    requires first <= 1
    ensures var layout := Layout(OneEach(ps), SingleGaps(first, |ps|));
            && Spelled(layout) == (if first == 1 && ps != [] then [SPACE] else []) + SpacedOut(ps)
            && ValuesOf(layout) == ValuesOf(ps)
    decreases |ps|
  {
    hide SpelledPart, ValuesOfPart;
    var layout := Layout(OneEach(ps), SingleGaps(first, |ps|));
    if ps == [] {
      assert layout == [];
    } else {
      var others := Layout(OneEach(ps[1..]), SingleGaps(1, |ps| - 1));
      assert OneEach(ps)[1..] == OneEach(ps[1..]);
      SpacedOutLayout(ps[1..], 1);
      LayoutOfOne(ps[0], first, others);
      assert SingleGaps(first, |ps|)[1..] == SingleGaps(1, |ps| - 1);
      assert layout == seq(first, _ => Gap) + ([ps[0]] + others);
      assert |ps| == 1 ==> ps[1..] == [] && SpelledPart(ps[0]) + [] == SpelledPart(ps[0]);
    }
  }

  lemma LayoutOfOne(p: Part, first: nat, others: seq<Part>)
    requires first <= 1
    ensures var layout := seq(first, _ => Gap) + ([p] + others);
            && Spelled(layout) == (if first == 1 then [SPACE] else []) + (SpelledPart(p) + Spelled(others))
            && ValuesOf(layout) == ValuesOfPart(p) + ValuesOf(others)
  {
    var tail := [p] + others;
    assert tail[1..] == others;
    if first == 0 {
      assert seq(first, _ => Gap) + tail == tail;
    } else {
      assert (seq(first, _ => Gap) + tail)[1..] == tail;
      assert SpelledPart(Gap) == [SPACE] && ValuesOfPart(Gap) == [];
    }
  }

  /** Directives with one space between any two: each is one argument. */
  lemma OnePartEach(ps: seq<Part>, args: seq<bytes>)
    requires |ps| == |args|
    requires forall i :: 0 <= i < |ps| ==> !ps[i].Gap? && GoodPart(ps[i], false) && TextOfPart(ps[i]) == args[i]
    ensures Fits(SpacedOut(ps), ValuesOf(ps))
    ensures Pieces(SpacedOut(ps), ValuesOf(ps)).Some?
    ensures Words(Pieces(SpacedOut(ps), ValuesOf(ps)).value) == args
  {
    hide Fits, Pieces, Words, Spelled, ValuesOf, Layout, SpacedOut, GoodPart, TextOfPart;
    var words := OneEach(ps);
    assert GoodLayout(words, SingleGaps(0, |ps|));
    ArgumentsOfLayout(words, SingleGaps(0, |ps|));
    SpacedOutLayout(ps, 0);
    assert [] + SpacedOut(ps) == SpacedOut(ps);
    forall i | 0 <= i < |ps| ensures WordTexts(words)[i] == args[i] {
      TextOfOne(ps[i]);
    }
    assert WordTexts(words) == args;
  }

  lemma TextOfOne(p: Part)
    ensures WordText([p]) == TextOfPart(p)
  {
    hide TextOfPart;
    assert TextOfPart(p) + [] == TextOfPart(p);
  }

  /**
   Agreement with the formatter that takes an argument list: "%s %s ..." of strings without a NUL, and "%b %b ..." of
   any bytes at all, stand for these arguments.
   */
  lemma SameAsArgumentList(args: seq<bytes>, behind: seq<bytes>, binary: bool)
    requires |behind| == |args| && (binary || forall i :: 0 <= i < |args| ==> 0 !in args[i])
    ensures var ps := Directives(args, behind, binary);
            && Fits(SpacedOut(ps), ValuesOf(ps))
            && Pieces(SpacedOut(ps), ValuesOf(ps)).Some?
            && Words(Pieces(SpacedOut(ps), ValuesOf(ps)).value) == args
  {
    hide Fits, Pieces, Words, ValuesOf, SpacedOut;
    OnePartEach(Directives(args, behind, binary), args);
  }

  function Directives(args: seq<bytes>, behind: seq<bytes>, binary: bool): (ps: seq<Part>)
    requires |behind| == |args|
    ensures |ps| == |args|
  {
    seq(|args|, i requires 0 <= i < |args| =>
          if binary then Part.Bin(args[i], behind[i]) else Part.Str(args[i], behind[i]))
  }
}
