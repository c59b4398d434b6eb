/** Printing integers: sdsll2str, sdsull2str, sdsfromlonglong (sds.c) and countDigits (hiredis.c). */
module Printing {
  import opened Bytes
  import opened SdsString

  const SDS_LLSTR_SIZE: int := 21

  /** The digits of n as the division loops produce them, least significant first. */
  function LowFirst(n: nat): (s: bytes)
    ensures |s| >= 1
  {
    [ZERO + n % 10] + if n < 10 then [] else LowFirst(n / 10)
  }

  function LowDigit(v: nat): byte {
    ZERO + v % 10
  }

  function Tenth(v: nat): nat {
    v / 10
  }

  /** The digits still to be written when v is what is left of the number; none are left at 0. */
  function LowRest(v: nat): bytes {
    if v == 0 then [] else LowFirst(v)
  }

  function DigitsRest(v: nat): bytes {
    if v == 0 then [] else Digits(v)
  }

  /** One turn of a division loop. */
  lemma DivisionStep(v: nat)
    ensures LowFirst(v) == [LowDigit(v)] + LowRest(Tenth(v))
    ensures Digits(v) == DigitsRest(Tenth(v)) + [LowDigit(v)]
    ensures v > 0 ==> Tenth(v) < v
  {
  }

  function Reversed(s: bytes): bytes {
    if s == [] then [] else Reversed(s[1..]) + [s[0]]
  }

  lemma {:induction false} ReversedLength(s: bytes)
    ensures |Reversed(s)| == |s|
  {
    if s != [] {
      ReversedLength(s[1..]);
    }
  }

  lemma {:induction false} ReversedAt(s: bytes, i: nat)
    requires i < |s|
    ensures |Reversed(s)| == |s| && Reversed(s)[i] == s[|s| - 1 - i]
  {
    if |s| > 1 {
      ReversedAt(s[1..], if i < |s| - 1 then i else 0);
    }
  }

  lemma {:induction false} ReversedSnoc(s: bytes, x: byte)
    ensures Reversed(s + [x]) == [x] + Reversed(s)
  {
    if s != [] {
      assert (s + [x])[1..] == s[1..] + [x];
      ReversedSnoc(s[1..], x);
    }
  }

  lemma {:induction false} LowFirstReversed(n: nat)
    ensures Reversed(LowFirst(n)) == Digits(n) && |LowFirst(n)| == |Digits(n)|
  {
    if n >= 10 {
      LowFirstReversed(n / 10);
      assert LowFirst(n)[1..] == LowFirst(n / 10);
    }
  }

  lemma DigitsBy100(n: nat)
    ensures n < 10 ==> |Digits(n)| == 1
    ensures 10 <= n < 100 ==> |Digits(n)| == 2
    ensures n >= 100 ==> |Digits(n)| == 2 + |Digits(n / 100)|
  {
    if n >= 100 {
      assert |Digits(n)| == 1 + |Digits(n / 10)| && |Digits(n / 10)| == 1 + |Digits(n / 100)|;
    }
  }

  lemma DigitsBy10000(n: nat)
    ensures n < 10 ==> |Digits(n)| == 1
    ensures 10 <= n < 100 ==> |Digits(n)| == 2
    ensures 100 <= n < 1000 ==> |Digits(n)| == 3
    ensures 1000 <= n < 10000 ==> |Digits(n)| == 4
    ensures n >= 10000 ==> |Digits(n)| == 4 + |Digits(n / 10000)|
  {
    hide Digits;
    DigitsBy100(n);
    DigitsBy100(n / 100);
  }

  /** A 64-bit number has at most 20 digits, a positive signed one at most 19. */
  lemma DigitsFit(n: nat)
    requires n <= ULLONG_MAX
    ensures |Digits(n)| <= 20
    ensures n <= LLONG_MAX ==> |Digits(n)| <= 19
  {
    hide Digits;
    DigitsBy10000(n);
    var a := n / 10000;
    DigitsBy10000(a);
    var b := a / 10000;
    DigitsBy10000(b);
    var c := b / 10000;
    DigitsBy10000(c);
    DigitsBy10000(c / 10000);
  }

  /** countDigits is the length of the printed number. */
  method CountDigits(v0: nat) returns (result: nat)
    ensures result == |Digits(v0)|
  {
    hide Digits;
    var v := v0;
    result := 1;
    while true
      invariant result + |Digits(v)| == 1 + |Digits(v0)|
      decreases v
    {
      DigitsBy10000(v);
      if v < 10 { return; }
      if v < 100 { return result + 1; }
      if v < 1000 { return result + 2; }
      if v < 10000 { return result + 3; }
      v := v / 10000;
      result := result + 4;
    }
  }

  /** The reversing loop that ends both printers. */
  method Reverse(s: array<byte>, l: nat)
    requires l <= s.Length
    modifies s
    ensures s[..l] == Reversed(old(s[..l]))
    ensures forall i :: l <= i < s.Length ==> s[i] == old(s[i])
  {
    ghost var was := s[..l];
    var i, p := 0, l - 1;
    while i < p
      invariant 0 <= i && i + p == l - 1 && i <= p + 2
      invariant forall j :: 0 <= j < l && (j < i || j > p) ==> s[j] == was[l - 1 - j]
      invariant forall j :: i <= j <= p ==> s[j] == was[j]
      invariant forall j :: l <= j < s.Length ==> s[j] == old(s[j])
    {
      s[i], s[p] := s[p], s[i];
      i := i + 1;
      p := p - 1;
    }
    ReversedLength(was);
    forall j | 0 <= j < l ensures s[j] == Reversed(was)[j] {
      ReversedAt(was, j);
    }
  }

  /** The division loop that starts both printers. */
  method WriteLowFirst(s: array<byte>, v0: nat) returns (p: nat)
    requires |LowFirst(v0)| <= s.Length
    modifies s
    ensures p == |LowFirst(v0)| && s[..p] == LowFirst(v0)
  {
    hide Digits, LowFirst, LowDigit, Tenth;
    var v: nat := v0;
    DivisionStep(v);
    s[0] := LowDigit(v);
    p := 1;
    v := Tenth(v);
    ghost var head: bytes := s[..p];
    while v != 0
      invariant 1 <= p <= |LowFirst(v0)| <= s.Length
      invariant s[..p] == head
      invariant head + LowRest(v) == LowFirst(v0)
    {
      DivisionStep(v);
      Assoc(head, [LowDigit(v)], LowRest(Tenth(v)));
      s[p] := LowDigit(v);
      head := head + [LowDigit(v)];
      p := p + 1;
      assert s[..p] == head;
      v := Tenth(v);
    }
  }

  /** sdsull2str. */
  method Ull2Str(s: array<byte>, v: nat) returns (l: nat)
    requires v <= ULLONG_MAX && s.Length >= SDS_LLSTR_SIZE
    modifies s
    ensures l == |Digits(v)| < SDS_LLSTR_SIZE && s[..l] == Digits(v) && s[l] == 0
  {
    hide Digits, LowFirst, Reversed;
    LowFirstReversed(v);
    DigitsFit(v);
    l := WriteLowFirst(s, v);
    s[l] := 0;
    assert s[..l] == LowFirst(v);
    Reverse(s, l);
  }

  /** sdsll2str. */
  method Ll2Str(s: array<byte>, value: int) returns (l: nat)
    requires LLONG_MIN < value <= LLONG_MAX && s.Length >= SDS_LLSTR_SIZE
    modifies s
    ensures l == |Number(value)| < SDS_LLSTR_SIZE && s[..l] == Number(value) && s[l] == 0
  {
    hide Digits, LowFirst, Reversed;
    var v: nat := if value < 0 then -value else value;
    LowFirstReversed(v);
    DigitsFit(v);
    var p := WriteLowFirst(s, v);
    if value < 0 {
      s[p] := MINUS;
      ReversedSnoc(LowFirst(v), MINUS);
      assert s[..p + 1] == LowFirst(v) + [MINUS];
      p := p + 1;
    }
    l := p;
    s[p] := 0;
    assert s[..l] == if value < 0 then LowFirst(v) + [MINUS] else LowFirst(v);
    Reverse(s, l);
  }

  lemma OneDigitMore(v: nat, tail: bytes)
    requires v > 0
    ensures DigitsRest(v) + tail == DigitsRest(Tenth(v)) + ([LowDigit(v)] + tail)
    ensures |DigitsRest(v) + tail| > |tail| && Tenth(v) < v
  {
    hide Digits, LowFirst, LowDigit, Tenth;
    DivisionStep(v);
    Assoc(DigitsRest(Tenth(v)), [LowDigit(v)], tail);
  }

  lemma FirstDigit(v: nat)
    ensures Digits(v) == DigitsRest(Tenth(v)) + [LowDigit(v)] && DigitsRest(0) == []
  {
    DivisionStep(v);
  }

  /** The digits of v, written so that they end at the end of the buffer. */
  method WriteAtEnd(buf: array<byte>, v0: nat) returns (p: int)
    requires |Digits(v0)| < buf.Length
    modifies buf
    ensures p == buf.Length - |Digits(v0)| - 1 && buf[p + 1..] == Digits(v0)
  {
    hide Digits, DigitsRest, LowFirst, LowRest, LowDigit, Tenth;
    var v: nat := v0;
    FirstDigit(v);
    p := buf.Length - 1;
    buf[p] := LowDigit(v);
    p := p - 1;
    v := Tenth(v);
    ghost var tail: bytes := buf[p + 1..];
    assert tail == [LowDigit(v0)];
    while v != 0
      invariant -1 <= p == buf.Length - 1 - |tail| && buf[p + 1..] == tail
      invariant DigitsRest(v) + tail == Digits(v0)
    {
      OneDigitMore(v, tail);
      Prepend(buf, p, LowDigit(v));
      tail := [LowDigit(v)] + tail;
      p := p - 1;
      v := Tenth(v);
    }
    assert [] + tail == tail;
  }

  /** One more digit in front of those already written. */
  method Prepend(buf: array<byte>, p: int, d: byte)
    requires 0 <= p < buf.Length
    modifies buf
    ensures buf[p..] == [d] + old(buf[p + 1..])
  {
    buf[p] := d;
  }

  /** sdsfromlonglong: the same text, written from the end of a local buffer. */
  method FromLongLong(value: int) returns (s: Sds)
    requires LLONG_MIN < value <= LLONG_MAX
    ensures fresh(s) && s.Valid() && s.Contents() == Number(value)
  {
    hide Digits;
    var buf := new byte[32];
    var v: nat := if value < 0 then -value else value;
    DigitsFit(v);
    var p := WriteAtEnd(buf, v);
    if value < 0 {
      buf[p] := MINUS;
      assert buf[p..] == [MINUS] + buf[p + 1..];
      p := p - 1;
    }
    p := p + 1;
    s := new Sds(buf[p..]);
  }
}
