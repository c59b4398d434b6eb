/** Bytes, byte strings and the decimal numbers that the protocol writes and reads. */
module Bytes {
  type byte = b: int | 0 <= b < 256
  type bytes = seq<byte>

  const CR: byte := 13
  const LF: byte := 10
  const CRLF: bytes := [13, 10]
  const SPACE: byte := 32
  const PERCENT: byte := 37
  const MINUS: byte := 45
  const PLUS: byte := 43
  const COLON: byte := 58
  const DOLLAR: byte := 36
  const STAR: byte := 42
  const ZERO: byte := 48

  const INT_MAX: int := 0x7fff_ffff
  const INT_MIN: int := -0x8000_0000
  const LLONG_MAX: int := 0x7fff_ffff_ffff_ffff
  const LLONG_MIN: int := -0x8000_0000_0000_0000
  const ULLONG_MAX: int := 0xffff_ffff_ffff_ffff

  datatype Option<+T> = None | Some(value: T)

  lemma Assoc(a: bytes, b: bytes, c: bytes)
    ensures a + b + c == a + (b + c)
  {
  }

  lemma SubSlice(s: bytes, d: nat, a: nat, b: nat)
    requires d <= d + a <= d + b <= |s|
    ensures s[d..][a..b] == s[d + a..d + b]
  {
  }

  /** Concatenation of a list of byte strings. */
  function Flatten(chunks: seq<bytes>): bytes {
    if chunks == [] then [] else chunks[0] + Flatten(chunks[1..])
  }

  lemma {:induction false} FlattenSnoc(chunks: seq<bytes>, last: bytes)
    ensures Flatten(chunks + [last]) == Flatten(chunks) + last
  {
    if chunks == [] {
      assert chunks + [last] == [last];
    } else {
      assert (chunks + [last])[1..] == chunks[1..] + [last];
      FlattenSnoc(chunks[1..], last);
    }
  }

  lemma {:induction false} FlattenAppend(a: seq<bytes>, b: seq<bytes>)
    ensures Flatten(a + b) == Flatten(a) + Flatten(b)
  {
    if a == [] {
      assert a + b == b;
    } else {
      assert (a + b)[1..] == a[1..] + b;
      FlattenAppend(a[1..], b);
    }
  }

  /** The decimal digits of n, most significant first, without leading zeros. */
  function Digits(n: nat): (s: bytes)
    ensures |s| >= 1
    ensures forall i :: 0 <= i < |s| ==> ZERO <= s[i] <= ZERO + 9
  {
    if n < 10 then [ZERO + n] else Digits(n / 10) + [ZERO + n % 10]
  }

  /** A signed number as printf's %d and %lld write it. */
  function Number(v: int): bytes {
    if v < 0 then [MINUS] + Digits(-v) else Digits(v)
  }

  /** What a run of the digit loop of readLongLong may come to. */
  datatype Scan = Value(v: int) | Junk | Overflow

  /** The digit loop: stops at the end of the line or at a lone carriage return. */
  function ScanDigits(s: bytes, v: nat): Scan {
    if s == [] || s[0] == CR then Value(v)
    else if ZERO <= s[0] <= ZERO + 9 then
      var w := v * 10 + (s[0] - ZERO);
      if w > LLONG_MAX then Overflow else ScanDigits(s[1..], w)
    else Junk
  }

  /** readLongLong on a line; None where the C arithmetic overflows (undefined). */
  function LongLongOf(line: bytes): Option<int> {
    var negative := line != [] && line[0] == MINUS;
    var signed := negative || (line != [] && line[0] == PLUS);
    match ScanDigits(if signed then line[1..] else line, 0)
    case Value(v) => Some(if negative then -v else v)
    case Junk => Some(-1)
    case Overflow => None
  }

  lemma {:induction false} ScanDigitsOfNumber(n: nat, t: bytes)
    ensures ScanDigits(Digits(n) + t, 0) == if n <= LLONG_MAX then ScanDigits(t, n) else Overflow
  {
    if n < 10 {
      assert (Digits(n) + t)[1..] == t;
    } else {
      var d: bytes := [ZERO + n % 10];
      ScanDigitsOfNumber(n / 10, d + t);
      assert Digits(n) + t == Digits(n / 10) + (d + t);
      assert (d + t)[1..] == t;
    }
  }

  /** Reading a printed number gives it back, up to the one value that does not fit. */
  lemma ReadLongLongInvertsNumber(v: int)
    ensures LongLongOf(Number(v)) == if -LLONG_MAX <= v <= LLONG_MAX then Some(v) else None
  {
    hide Digits;
    if v < 0 {
      ScanDigitsOfNumber(-v, []);
      assert Digits(-v) + [] == Digits(-v);
      assert Number(v)[1..] == Digits(-v);
    } else {
      ScanDigitsOfNumber(v, []);
      assert Digits(v) + [] == Digits(v);
    }
  }

  predicate IsDecimal(ds: bytes) {
    forall i :: 0 <= i < |ds| ==> ZERO <= ds[i] <= ZERO + 9
  }

  /** What digits mean, leading zeros or none at all included. */
  function Decimal(ds: bytes): nat
    requires IsDecimal(ds)
  {
    if ds == [] then 0 else 10 * Decimal(ds[..|ds| - 1]) + (ds[|ds| - 1] - ZERO)
  }

  lemma {:induction false} ScanDigitsExactly(ds: bytes, t: bytes)
    requires IsDecimal(ds)
    ensures ScanDigits(ds + t, 0) == if Decimal(ds) <= LLONG_MAX then ScanDigits(t, Decimal(ds)) else Overflow
    decreases |ds|
  {
    if ds == [] {
      assert ds + t == t;
    } else {
      var front, last := ds[..|ds| - 1], ds[|ds| - 1];
      assert ds + t == front + ([last] + t);
      assert ([last] + t)[1..] == t;
      ScanDigitsExactly(front, [last] + t);
    }
  }

  predicate IsSign(sign: bytes) { sign == [] || sign == [PLUS] || sign == [MINUS] }

  /** What digits behind a sign, or behind none, mean. */
  function Signed(sign: bytes, ds: bytes): int
    requires IsDecimal(ds)
  {
    if sign == [MINUS] then 0 - Decimal(ds) else Decimal(ds)
  }

  lemma SignedLine(sign: bytes, rest: bytes)
    requires IsSign(sign) && (sign == [] && rest != [] ==> rest[0] != PLUS && rest[0] != MINUS)
    ensures LongLongOf(sign + rest) ==
              match ScanDigits(rest, 0)
              case Value(v) => Some(if sign == [MINUS] then -v else v)
              case Junk => Some(-1)
              case Overflow => None
  {
    hide ScanDigits;
    var line := sign + rest;
    if sign == [] {
      assert line == rest;
    } else {
      assert line[0] == sign[0] && line[1..] == rest;
    }
  }

  /**
   A line of digits, after a sign or none, is their value; undefined beyond the largest long long. A carriage return
   ends the number, whatever follows.
   */
  lemma ReadLongLongOfDigits(sign: bytes, ds: bytes, t: bytes)
    requires IsSign(sign) && IsDecimal(ds) && (t != [] ==> t[0] == CR)
    ensures LongLongOf(sign + (ds + t)) ==
              if Decimal(ds) <= LLONG_MAX then Some(Signed(sign, ds)) else None
  {
    ScanDigitsExactly(ds, t);
    SignedLine(sign, ds + t);
  }

  /** Any other byte but a carriage return makes the line read as -1. */
  lemma ReadLongLongOfJunk(sign: bytes, ds: bytes, x: byte, t: bytes)
    requires IsSign(sign) && IsDecimal(ds) && x != CR && !IsDecimal([x])
    requires sign == [] && ds == [] ==> x != PLUS && x != MINUS
    ensures LongLongOf(sign + (ds + ([x] + t))) == if Decimal(ds) <= LLONG_MAX then Some(-1) else None
  {
    ScanDigitsExactly(ds, [x] + t);
    assert [x][0] == x;
    SignedLine(sign, ds + ([x] + t));
  }

  lemma ReadLongLongRange(line: bytes)
    ensures LongLongOf(line).Some? ==> -LLONG_MAX <= LongLongOf(line).value <= LLONG_MAX
  {
    ScanRange(line, 0);
    if line != [] {
      ScanRange(line[1..], 0);
    }
  }

  lemma {:induction false} ScanRange(s: bytes, v: nat)
    requires v <= LLONG_MAX
    ensures ScanDigits(s, v).Value? ==> 0 <= ScanDigits(s, v).v <= LLONG_MAX
  {
    if s != [] && s[0] != CR && ZERO <= s[0] <= ZERO + 9 {
      var w := v * 10 + (s[0] - ZERO);
      if w <= LLONG_MAX {
        ScanRange(s[1..], w);
      }
    }
  }

  /** Index of the first CR LF in s, or -1. */
  function FindCrlf(s: bytes): (k: int)
    ensures -1 <= k
    ensures k >= 0 ==> k + 2 <= |s| && s[k] == CR && s[k + 1] == LF
    ensures forall j :: 0 <= j < (if k < 0 then |s| - 1 else k) ==> !(s[j] == CR && s[j + 1] == LF)
  {
    if |s| < 2 then -1
    else if s[0] == CR && s[1] == LF then 0
    else
      var r := FindCrlf(s[1..]);
      assert forall j :: 0 < j < |s| ==> s[j] == s[1..][j - 1];
      if r < 0 then -1 else r + 1
  }

  lemma FindCrlfUnique(s: bytes, k: nat)
    requires k + 2 <= |s| && s[k] == CR && s[k + 1] == LF
    requires forall j :: 0 <= j < k ==> !(s[j] == CR && s[j + 1] == LF)
    ensures FindCrlf(s) == k
  {
  }

  lemma FindCrlfExtends(s: bytes, t: bytes)
    requires FindCrlf(s) >= 0
    ensures FindCrlf(s + t) == FindCrlf(s)
  {
    FindCrlfUnique(s + t, FindCrlf(s));
  }

  /** No CR LF inside: what a status or error line may carry. */
  predicate OneLine(s: bytes) {
    FindCrlf(s) < 0
  }

  /** A line is found exactly at its own end, and only if it holds no CR LF itself. */
  lemma FindCrlfAfterLine(line: bytes, t: bytes)
    ensures FindCrlf(line + CRLF + t) == |line| <==> OneLine(line)
  {
    var s := line + CRLF + t;
    if OneLine(line) {
      FindCrlfUnique(s, |line|);
    } else {
      FindCrlfExtends(line, CRLF + t);
      assert line + (CRLF + t) == s;
    }
  }

  lemma NumberIsOneLine(v: int)
    ensures OneLine(Number(v))
  {
  }
}
