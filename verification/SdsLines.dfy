/**
 What sdssplitargs reads, told from how a line is put together: words, bare, quoted or bare with a quoted end, and
 runs of blanks between them.
 */
module SdsLines {
  import opened Bytes
  import opened SdsArgs

  /** One byte of a word between double quotes, and how it is written. */
  datatype Unit =
    | Plain(c: byte)
    | Hex(high: nat, low: nat, upperHigh: bool, upperLow: bool)   // \x and two digits of either case
    | Escaped(c: byte)                                            // a backslash and one more byte

  /** One byte of a word between single quotes: itself, or an apostrophe behind a backslash. */
  datatype SingleUnit = Itself(c: byte) | EscapedApostrophe

  datatype Ending = Open | Double(units: seq<Unit>) | Single(letters: seq<SingleUnit>)

  /** Bytes as they stand, and then a quoted part or none. */
  datatype Word = Word(bare: bytes, ending: Ending)

  /** A word and the blanks before it. */
  datatype Item = Item(gap: bytes, word: Word)

  // ------------------------------------------------------------- inside quotes

  /** White space: blank, tab, line feed, vertical tab, form feed and carriage return. */
  predicate IsBlank(c: byte) { c in [32, 9, 10, 11, 12, 13] }

  lemma Blanks(c: byte)
    ensures IsSpace(c) <==> IsBlank(c)
  {
  }

  function Digit(d: nat, upper: bool): byte
    requires d < 16
  {
    if d < 10 then 48 + d else if upper then 65 + (d - 10) else 97 + (d - 10)
  }

  predicate GoodUnit(u: Unit) {
    match u
    case Plain(c) => c != QUOTE && c != BACKSLASH
    case Hex(high, low, _, _) => high < 16 && low < 16
    case Escaped(_) => true
  }

  function SpelledUnit(u: Unit): bytes
    requires GoodUnit(u)
  {
    match u
    case Plain(c) => [c]
    case Hex(high, low, a, b) => [BACKSLASH, LETTER_X, Digit(high, a), Digit(low, b)]
    case Escaped(c) => [BACKSLASH, c]
  }

  /** The letters n, r, t, b, a stand for control characters. */
  const CONTROLS: map<byte, byte> := map[110 := 10, 114 := 13, 116 := 9, 98 := 8, 97 := 7]

  function UnitValue(u: Unit): byte
    requires GoodUnit(u)
  {
    match u
    case Plain(c) => c
    case Hex(high, low, _, _) => 16 * high + low
    case Escaped(c) => if c in CONTROLS then CONTROLS[c] else c
  }

  const HEX: bytes := [48, 49, 50, 51, 52, 53, 54, 55, 56, 57, 97, 98, 99, 100, 101, 102, 65, 66, 67, 68, 69, 70]

  predicate StartsHex(l: bytes) { |l| >= 2 && l[0] in HEX && l[1] in HEX }

  lemma HexDigits(c: byte)
    ensures IsHexDigit(c) <==> c in HEX
  {
  }

  /** A backslash and an x are those two only if no two hexadecimal digits follow. */
  predicate GoodUnits(us: seq<Unit>)
    decreases |us|, 0
  {
    us != [] ==>
      && GoodUnit(us[0]) && GoodUnits(us[1..])
      && (us[0] == Escaped(LETTER_X) ==> !StartsHex(SpelledUnits(us[1..])))
  }

  function SpelledUnits(us: seq<Unit>): bytes
    requires GoodUnits(us)
    decreases |us|, 1
  {
    if us == [] then [] else SpelledUnit(us[0]) + SpelledUnits(us[1..])
  }

  function UnitValues(us: seq<Unit>): bytes
    requires GoodUnits(us)
  {
    if us == [] then [] else [UnitValue(us[0])] + UnitValues(us[1..])
  }

  lemma DigitsAreHex(d: nat, upper: bool)
    requires d < 16
    ensures IsHexDigit(Digit(d, upper)) && HexValue(Digit(d, upper)) == d
  {
  }

  lemma PlainRead(c: byte, t: bytes)
    requires c != QUOTE && c != BACKSLASH
    ensures DoubleTurn([c] + t) == More(InDouble, [c], 1)
  {
  }

  lemma HexRead(x: byte, y: byte, t: bytes)
    requires IsHexDigit(x) && IsHexDigit(y)
    ensures DoubleTurn([BACKSLASH, LETTER_X, x, y] + t) == More(InDouble, [HexValue(x) * 16 + HexValue(y)], 4)
  {
    hide HexValue, IsHexDigit;
  }

  lemma EscapedRead(c: byte, t: bytes)
    requires c == LETTER_X ==> !StartsHex(t)
    ensures DoubleTurn([BACKSLASH, c] + t) == More(InDouble, [if c in CONTROLS then CONTROLS[c] else c], 2)
  {
    hide IsHexDigit;
    if |t| >= 2 {
      HexDigits(t[0]);
      HexDigits(t[1]);
    }
  }

  lemma UnitRead(u: Unit, t: bytes)
    requires GoodUnit(u) && (u == Escaped(LETTER_X) ==> !StartsHex(t))
    ensures TurnOf(SpelledUnit(u) + t, InDouble) == More(InDouble, [UnitValue(u)], |SpelledUnit(u)|)
    ensures (SpelledUnit(u) + t)[|SpelledUnit(u)|..] == t
  {
    hide HexValue, IsHexDigit, Digit, DoubleTurn, StartsHex;
    match u
    case Plain(c) => PlainRead(c, t);
    case Hex(high, low, a, b) =>
      DigitsAreHex(high, a);
      DigitsAreHex(low, b);
      HexRead(Digit(high, a), Digit(low, b), t);
    case Escaped(c) => EscapedRead(c, t);
  }

  lemma NoHexBehind(s: bytes, t: bytes)
    requires !StartsHex(s) && (t == [] || t[0] == QUOTE || t[0] == BACKSLASH)
    ensures !StartsHex(s + t)
  {
  }

  /** Between double quotes each unit gives its byte. */
  lemma {:induction false} UnitsRead(us: seq<Unit>, t: bytes, cur: bytes)
    requires GoodUnits(us) && (t == [] || t[0] == QUOTE || t[0] == BACKSLASH)
    ensures Token(SpelledUnits(us) + t, InDouble, cur) == Token(t, InDouble, cur + UnitValues(us))
    decreases |us|
  {
    hide SpelledUnit, UnitValue, GoodUnit, TurnOf, Token, StartsHex;
    if us == [] {
      assert [] + t == t && cur + [] == cur;
    } else {
      var tail := SpelledUnits(us[1..]) + t;
      Assoc(SpelledUnit(us[0]), SpelledUnits(us[1..]), t);
      if us[0] == Escaped(LETTER_X) {
        NoHexBehind(SpelledUnits(us[1..]), t);
      }
      UnitRead(us[0], tail);
      TokenStep(SpelledUnit(us[0]) + tail, InDouble, cur);
      UnitsRead(us[1..], t, cur + [UnitValue(us[0])]);
      Assoc(cur, [UnitValue(us[0])], UnitValues(us[1..]));
    }
  }

  function SpelledLetter(u: SingleUnit): bytes {
    if u.Itself? then [u.c] else [BACKSLASH, APOSTROPHE]
  }

  function LetterValue(u: SingleUnit): byte {
    if u.Itself? then u.c else APOSTROPHE
  }

  function SpelledLetters(us: seq<SingleUnit>): bytes {
    if us == [] then [] else SpelledLetter(us[0]) + SpelledLetters(us[1..])
  }

  function LetterValues(us: seq<SingleUnit>): bytes {
    if us == [] then [] else [LetterValue(us[0])] + LetterValues(us[1..])
  }

  predicate NoApostrophe(us: seq<SingleUnit>) {
    forall i :: 0 <= i < |us| ==> us[i] != Itself(APOSTROPHE)
  }

  /** And a backslash is not the last one, where it would hide the quote. */
  predicate GoodLetters(us: seq<SingleUnit>) {
    NoApostrophe(us) && (us != [] ==> us[|us| - 1] != Itself(BACKSLASH))
  }

  /** No apostrophe begins what is left. */
  lemma LettersBegin(us: seq<SingleUnit>)
    requires us != [] && us[0] != Itself(APOSTROPHE)
    ensures SpelledLetters(us) != [] && SpelledLetters(us)[0] != APOSTROPHE
  {
  }

  lemma LetterRead(u: SingleUnit, t: bytes)
    requires u != Itself(APOSTROPHE) && (u == Itself(BACKSLASH) ==> t == [] || t[0] != APOSTROPHE)
    ensures TurnOf(SpelledLetter(u) + t, InSingle) == More(InSingle, [LetterValue(u)], |SpelledLetter(u)|)
    ensures (SpelledLetter(u) + t)[|SpelledLetter(u)|..] == t
  {
    var l := SpelledLetter(u) + t;
    assert forall i :: 0 <= i < |SpelledLetter(u)| ==> l[i] == SpelledLetter(u)[i];
  }

  /** Between single quotes every byte is itself. */
  lemma {:induction false} LettersRead(us: seq<SingleUnit>, t: bytes, cur: bytes)
    requires NoApostrophe(us) && (t != [] && t[0] == APOSTROPHE ==> GoodLetters(us))
    ensures Token(SpelledLetters(us) + t, InSingle, cur) == Token(t, InSingle, cur + LetterValues(us))
    decreases |us|
  {
    hide SpelledLetter, LetterValue, TurnOf, Token;
    if us == [] {
      assert [] + t == t && cur + [] == cur;
    } else {
      var tail := SpelledLetters(us[1..]) + t;
      Assoc(SpelledLetter(us[0]), SpelledLetters(us[1..]), t);
      if |us| > 1 {
        LettersBegin(us[1..]);
      } else {
        assert us[1..] == [] && tail == t;
      }
      LetterRead(us[0], tail);
      TokenStep(SpelledLetter(us[0]) + tail, InSingle, cur);
      LettersRead(us[1..], t, cur + [LetterValue(us[0])]);
      Assoc(cur, [LetterValue(us[0])], LetterValues(us[1..]));
    }
  }

  // --------------------------------------------------------------------- words

  /** The blanks that end a bare word; vertical tab and form feed do not. */
  predicate EndsWord(c: byte) { c in [32, 9, 10, 13] }

  predicate GoodBare(s: bytes) {
    && (forall i :: 0 <= i < |s| ==> !EndsWord(s[i]) && s[i] != QUOTE && s[i] != APOSTROPHE)
    && (s != [] ==> !IsBlank(s[0]))
  }

  predicate GoodWord(w: Word) {
    && GoodBare(w.bare)
    && match w.ending
       case Open => w.bare != []
       case Double(us) => GoodUnits(us)
       case Single(us) => GoodLetters(us)
  }

  function SpelledWord(w: Word): bytes
    requires GoodWord(w)
  {
    w.bare +
    match w.ending
    case Open => []
    case Double(us) => [QUOTE] + (SpelledUnits(us) + [QUOTE])
    case Single(us) => [APOSTROPHE] + (SpelledLetters(us) + [APOSTROPHE])
  }

  function WordValue(w: Word): bytes
    requires GoodWord(w)
  {
    w.bare +
    match w.ending
    case Open => []
    case Double(us) => UnitValues(us)
    case Single(us) => LetterValues(us)
  }

  /** What may come behind a word: the end of the line, or a blank that ends it. */
  predicate Separates(w: Word, rest: bytes) {
    rest == [] || (if w.ending.Open? then EndsWord(rest[0]) else IsBlank(rest[0]))
  }

  lemma {:induction false} BareRead(s: bytes, t: bytes, cur: bytes)
    requires forall i :: 0 <= i < |s| ==> !EndsWord(s[i]) && s[i] != QUOTE && s[i] != APOSTROPHE
    ensures Token(s + t, Bare, cur) == Token(t, Bare, cur + s)
    decreases |s|
  {
    hide Token;
    if s == [] {
      assert [] + t == t && cur + [] == cur;
    } else {
      assert (s + t)[1..] == s[1..] + t;
      TokenStep(s + t, Bare, cur);
      BareRead(s[1..], t, cur + [s[0]]);
      assert cur + [s[0]] + s[1..] == cur + s;
    }
  }

  /** A quote opens a quoted part. */
  lemma QuoteOpens(inner: bytes, cur: bytes)
    ensures Token([QUOTE] + inner, Bare, cur) == Token(inner, InDouble, cur)
    ensures Token([APOSTROPHE] + inner, Bare, cur) == Token(inner, InSingle, cur)
  {
    hide Token;
    var d, s := [QUOTE] + inner, [APOSTROPHE] + inner;
    assert d[1..] == inner && s[1..] == inner && cur + [] == cur;
    TokenStep(d, Bare, cur);
    TokenStep(s, Bare, cur);
  }

  /** It closes the part, and with it the word, before a blank and at the end of the line; nowhere else. */
  lemma QuoteCloses(rest: bytes, cur: bytes)
    ensures Token([QUOTE] + rest, InDouble, cur) == Closed(cur, rest)
    ensures Token([APOSTROPHE] + rest, InSingle, cur) == Closed(cur, rest)
  {
    hide Token, IsBlank;
    var d, s := [QUOTE] + rest, [APOSTROPHE] + rest;
    assert d[1..] == rest && s[1..] == rest;
    TokenStep(d, InDouble, cur);
    TokenStep(s, InSingle, cur);
    if rest != [] {
      Blanks(rest[0]);
      assert d[1] == rest[0] && s[1] == rest[0];
    }
  }

  lemma WordBegins(w: Word)
    requires GoodWord(w)
    ensures SpelledWord(w) != [] && !IsBlank(SpelledWord(w)[0])
  {
    hide SpelledUnits, SpelledLetters, GoodUnits, GoodLetters;
    assert w.bare != [] ==> SpelledWord(w)[0] == w.bare[0];
  }

  /** What closing a quoted part comes to. */
  function Closed(value: bytes, rest: bytes): Option<(bytes, bytes)> {
    if rest == [] || IsBlank(rest[0]) then Some((value, rest)) else None
  }

  lemma {:induction false} DoubleRead(bare: bytes, us: seq<Unit>, rest: bytes)
    requires GoodBare(bare) && GoodUnits(us)
    ensures Token(bare + ([QUOTE] + (SpelledUnits(us) + ([QUOTE] + rest))), Bare, []) ==
              Closed(bare + UnitValues(us), rest)
  {
    hide Token, SpelledUnits, UnitValues, IsBlank, GoodUnits;
    var end := [QUOTE] + rest;
    var inner := SpelledUnits(us) + end;
    BareRead(bare, [QUOTE] + inner, []);
    assert [] + bare == bare;
    QuoteOpens(inner, bare);
    UnitsRead(us, end, bare);
    QuoteCloses(rest, bare + UnitValues(us));
  }

  lemma {:induction false} SingleRead(bare: bytes, us: seq<SingleUnit>, rest: bytes)
    requires GoodBare(bare) && GoodLetters(us)
    ensures Token(bare + ([APOSTROPHE] + (SpelledLetters(us) + ([APOSTROPHE] + rest))), Bare, []) ==
              Closed(bare + LetterValues(us), rest)
  {
    hide Token, SpelledLetters, LetterValues, IsBlank;
    var end := [APOSTROPHE] + rest;
    var inner := SpelledLetters(us) + end;
    BareRead(bare, [APOSTROPHE] + inner, []);
    assert [] + bare == bare;
    QuoteOpens(inner, bare);
    LettersRead(us, end, bare);
    QuoteCloses(rest, bare + LetterValues(us));
  }

  lemma Quoted(bare: bytes, q: bytes, s: bytes, rest: bytes)
    ensures bare + (q + (s + q)) + rest == bare + (q + (s + (q + rest)))
  {
  }

  /** A word with a quoted end, before anything: its value before a blank or the end of the line, and an error else. */
  lemma {:induction false} QuotedRead(w: Word, rest: bytes)
    requires GoodWord(w) && !w.ending.Open?
    ensures Token(SpelledWord(w) + rest, Bare, []) == Closed(WordValue(w), rest)
  {
    hide Token, SpelledUnits, SpelledLetters, UnitValues, LetterValues, Closed, GoodBare, GoodUnits, GoodLetters;
    match w.ending
    case Double(us) =>
      Quoted(w.bare, [QUOTE], SpelledUnits(us), rest);
      DoubleRead(w.bare, us, rest);
    case Single(us) =>
      Quoted(w.bare, [APOSTROPHE], SpelledLetters(us), rest);
      SingleRead(w.bare, us, rest);
  }

  /** A word is read as one argument, its value. */
  lemma {:induction false} WordRead(w: Word, rest: bytes)
    requires GoodWord(w) && Separates(w, rest)
    ensures var r := Token(SpelledWord(w) + rest, Bare, []);
            r.Some? && r.value.0 == WordValue(w) && Args(r.value.1) == Args(rest)
  {
    hide Token, Args;
    if w.ending.Open? {
      var none: bytes := [];
      assert none + w.bare == w.bare;
      assert SpelledWord(w) == w.bare && WordValue(w) == w.bare;
      BareRead(w.bare, rest, none);
      BareEnds(rest, w.bare);
    } else {
      QuotedRead(w, rest);
    }
  }

  /** A bare word takes the blank that ends it. */
  lemma BareEnds(rest: bytes, cur: bytes)
    requires rest == [] || EndsWord(rest[0])
    ensures var r := Token(rest, Bare, cur);
            r.Some? && r.value.0 == cur && Args(r.value.1) == Args(rest)
  {
    hide Token, Args;
    TokenStep(rest, Bare, cur);
    if rest == [] {
      assert rest[0..] == rest;
    } else {
      BlankSkipped(rest);
    }
  }

  lemma BlankSkipped(l: bytes)
    requires l != [] && IsBlank(l[0])
    ensures Args(l) == Args(l[1..])
  {
    hide Token, Args;
    Blanks(l[0]);
    ArgsAfterBlanks(l);
    ArgsAfterBlanks(l[1..]);
  }

  lemma {:induction false} BlanksSkipped(gap: bytes, l: bytes)
    requires forall i :: 0 <= i < |gap| ==> IsBlank(gap[i])
    ensures Args(gap + l) == Args(l)
    decreases |gap|
  {
    hide Args;
    if gap == [] {
      assert gap + l == l;
    } else {
      assert (gap + l)[1..] == gap[1..] + l;
      BlankSkipped(gap + l);
      BlanksSkipped(gap[1..], l);
    }
  }

  // --------------------------------------------------------------------- lines

  predicate Blank(gap: bytes) {
    forall i :: 0 <= i < |gap| ==> IsBlank(gap[i])
  }

  /** Words that are separated by blanks, and what comes behind the last one. */
  predicate GoodItems(items: seq<Item>, rest: bytes)
    decreases |items|, 0
  {
    items != [] ==>
      && Blank(items[0].gap) && GoodWord(items[0].word)
      && GoodItems(items[1..], rest)
      && Separates(items[0].word, SpelledItems(items[1..], rest))
  }

  function SpelledItems(items: seq<Item>, rest: bytes): bytes
    requires GoodItems(items, rest)
    decreases |items|, 1
  {
    if items == [] then rest
    else items[0].gap + (SpelledWord(items[0].word) + SpelledItems(items[1..], rest))
  }

  function ItemValues(items: seq<Item>, rest: bytes): seq<bytes>
    requires GoodItems(items, rest)
  {
    if items == [] then [] else [WordValue(items[0].word)] + ItemValues(items[1..], rest)
  }

  /** The arguments are the words in order, and then what the rest of the line gives. */
  lemma {:induction false} ItemsRead(items: seq<Item>, rest: bytes)
    requires GoodItems(items, rest)
    ensures Args(SpelledItems(items, rest)) == Extended(ItemValues(items, rest), Args(rest))
    decreases |items|
  {
    hide SpelledWord, WordValue, Token, Args, GoodWord, Separates;
    if items == [] {
      ExtendedNil(Args(rest));
    } else {
      var w, tail := items[0].word, SpelledItems(items[1..], rest);
      var l := SpelledWord(w) + tail;
      BlanksSkipped(items[0].gap, l);
      WordBegins(w);
      WordRead(w, tail);
      NoBlankFirst(l);
      ArgsTokenStep(l);
      ItemsRead(items[1..], rest);
      assert Args(rest).Some? ==> [WordValue(w)] + (ItemValues(items[1..], rest) + Args(rest).value) ==
                                  [WordValue(w)] + ItemValues(items[1..], rest) + Args(rest).value;
    }
  }

  lemma NoBlankFirst(l: bytes)
    requires l != [] && !IsBlank(l[0])
    ensures SkipBlanks(l) == l
  {
    Blanks(l[0]);
  }

  /** A line of words with blanks between them, before the first and behind the last, gives exactly these words. */
  lemma {:induction false} LineExactly(items: seq<Item>, end: bytes)
    requires Blank(end) && GoodItems(items, end)
    ensures Args(SpelledItems(items, end)) == Some(ItemValues(items, end))
  {
    hide Args, SpelledItems, ItemValues, GoodItems;
    ItemsRead(items, end);
    BlanksSkipped(end, []);
    assert end + [] == end;
    NothingOnLine();
    assert ItemValues(items, end) + [] == ItemValues(items, end);
  }

  lemma NothingOnLine()
    ensures Args([]) == Some([])
  {
  }

  // ---------------------------------------------------------------- wrong quotes

  /** A word that is wrong: its quote is not closed, or something other than a blank follows the closing quote. */
  datatype Wrong =
    | OpenDouble(bare: bytes, units: seq<Unit>, lone: bool)             // with a backslash at the end or without
    | OpenSingle(bare: bytes, letters: seq<SingleUnit>)
    | Followed(word: Word, c: byte, rest: bytes)

  predicate IsWrong(x: Wrong) {
    match x
    case OpenDouble(bare, units, _) => GoodBare(bare) && GoodUnits(units)
    case OpenSingle(bare, letters) => GoodBare(bare) && NoApostrophe(letters)
    case Followed(w, c, _) => GoodWord(w) && !w.ending.Open? && !IsBlank(c)
  }

  function SpelledWrong(x: Wrong): bytes
    requires IsWrong(x)
  {
    match x
    case OpenDouble(bare, units, lone) => bare + ([QUOTE] + (SpelledUnits(units) + if lone then [BACKSLASH] else []))
    case OpenSingle(bare, letters) => bare + ([APOSTROPHE] + SpelledLetters(letters))
    case Followed(w, c, rest) => SpelledWord(w) + ([c] + rest)
  }

  lemma {:induction false} WrongRead(x: Wrong)
    requires IsWrong(x)
    ensures SpelledWrong(x) != [] && !IsBlank(SpelledWrong(x)[0]) && Token(SpelledWrong(x), Bare, []) == None
  {
    hide Token, SpelledUnits, SpelledLetters, UnitValues, LetterValues;
    var none: bytes := [];
    match x
    case OpenDouble(bare, units, lone) =>
      var end: bytes := if lone then [BACKSLASH] else [];
      BareRead(bare, [QUOTE] + (SpelledUnits(units) + end), none);
      QuoteOpens(SpelledUnits(units) + end, none + bare);
      UnitsRead(units, end, none + bare);
      NeverClosed(none + bare + UnitValues(units));
    case OpenSingle(bare, letters) =>
      BareRead(bare, [APOSTROPHE] + SpelledLetters(letters), none);
      QuoteOpens(SpelledLetters(letters), none + bare);
      LettersRead(letters, [], none + bare);
      assert SpelledLetters(letters) + [] == SpelledLetters(letters);
      NeverClosed(none + bare + LetterValues(letters));
    case Followed(w, c, rest) =>
      WordBegins(w);
      QuotedRead(w, [c] + rest);
  }

  lemma NeverClosed(cur: bytes)
    ensures Token([], InDouble, cur) == None && Token([BACKSLASH], InDouble, cur) == None
    ensures Token([], InSingle, cur) == None
  {
    assert [BACKSLASH][1..] == [];
  }

  /** One wrong word makes the whole line wrong, whatever words come before it. */
  lemma {:induction false} WrongLine(items: seq<Item>, gap: bytes, x: Wrong)
    requires Blank(gap) && IsWrong(x) && GoodItems(items, gap + SpelledWrong(x))
    ensures Args(SpelledItems(items, gap + SpelledWrong(x))) == None
  {
    hide Args, SpelledItems, ItemValues, GoodItems, Token, SpelledWrong, IsWrong;
    var l := SpelledWrong(x);
    ItemsRead(items, gap + l);
    BlanksSkipped(gap, l);
    WrongRead(x);
    NoBlankFirst(l);
    ArgsTokenStep(l);
  }

  // ------------------------------------------------------- the form that is printed

  /** The word that sdscatrepr writes for one byte. */
  function UnitFor(b: byte): (u: Unit)
    ensures GoodUnit(u) && u != Escaped(LETTER_X) && UnitValue(u) == b
  {
    if b == QUOTE || b == BACKSLASH then Escaped(b)
    else if b == 10 then Escaped(110)
    else if b == 13 then Escaped(114)
    else if b == 9 then Escaped(116)
    else if b == 8 then Escaped(98)
    else if b == 7 then Escaped(97)
    else if 32 <= b < 127 then Plain(b)
    else Hex(b / 16, b % 16, false, false)
  }

  predicate Printable(s: bytes) {
    forall i :: 0 <= i < |s| ==> 32 <= s[i] < 127
  }

  /** Of all ways to write a byte between double quotes in printable bytes, the shortest, with digits in lower case. */
  lemma EscapeIsShortest(b: byte, u: Unit)
    requires GoodUnit(u) && UnitValue(u) == b && Printable(SpelledUnit(u))
    ensures Escape(b) == SpelledUnit(UnitFor(b)) && Printable(Escape(b))
    ensures |Escape(b)| <= |SpelledUnit(u)|
  {
    assert SpelledUnit(u)[|SpelledUnit(u)| - 1] >= 32;
  }
}
