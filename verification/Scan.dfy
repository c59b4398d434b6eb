/** The two scanning loops of read.c, on the NUL-terminated memory of a read buffer. */
module Scan {
  import opened Bytes

  /** seekNewline: the offset of the first CR LF within len bytes from `from`, or -1. */
  method SeekNewline(s: array<byte>, from: nat, len: nat) returns (k: int)
    requires from + len < s.Length && s[from + len] == 0
    ensures k == FindCrlf(s[from..from + len])
  {
    var pos, last := 0, len - 1;
    ghost var text := s[from..from + len];
    while pos < last
      invariant 0 <= pos <= len
      invariant forall j :: 0 <= j < pos && j < len - 1 ==> !(text[j] == CR && text[j + 1] == LF)
    {
      while pos < last && s[from + pos] != CR
        invariant 0 <= pos <= last
        invariant forall j :: 0 <= j < pos ==> !(text[j] == CR && text[j + 1] == LF)
      {
        pos := pos + 1;
      }
      if s[from + pos] != CR {
        return -1;
      } else if s[from + pos + 1] == LF {
        FindCrlfUnique(text, pos);
        return pos;
      } else {
        pos := pos + 1;
      }
    }
    return -1;
  }

  /** readLongLong: the number at `from`, in a line that ends with a carriage return k bytes further on. */
  method ReadLongLong(s: array<byte>, from: nat, ghost k: nat) returns (v: int)
    requires from + k < s.Length && s[from + k] == CR
    requires LongLongOf(s[from..from + k]).Some?
    ensures LongLongOf(s[from..from + k]) == Some(v)
  {
    var p, mult := from, 1;
    ghost var end := from + k;
    if s[p] == MINUS {
      mult := -1;
      p := p + 1;
    } else if s[p] == PLUS {
      p := p + 1;
    }
    ghost var scan := ScanDigits(s[p..end], 0);
    v := 0;
    while s[p] != CR
      invariant from <= p <= end && v >= 0
      invariant ScanDigits(s[p..end], v) == scan
      decreases end - p
    {
      assert s[p..end][1..] == s[p + 1..end];
      var dec := s[p] - ZERO;
      p := p + 1;
      if 0 <= dec < 10 {
        v := v * 10 + dec;
      } else {
        return -1;
      }
    }
    v := mult * v;
  }
}
