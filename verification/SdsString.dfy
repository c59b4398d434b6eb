/** Growable strings (sds.c): a byte buffer with a length, some free space and a NUL after the text. */
module SdsString {
  import opened Bytes

  const SDS_MAX_PREALLOC: int := 1024 * 1024

  /** A position in a string of length n; negative ones count from the end and stop at 0. */
  function Position(n: nat, i: int): nat {
    if i >= 0 then i else if n + i < 0 then 0 else n + i
  }

  /** How many bytes lie between two inclusive positions. */
  function SliceLen(n: nat, start: int, end: int): (k: nat)
    ensures k > 0 ==> Position(n, start) + k <= n
  {
    var lo, hi := Position(n, start), Position(n, end);
    if lo > hi || lo >= n then 0 else if hi < n then hi - lo + 1 else n - lo
  }

  /** The part of s between two inclusive positions. */
  function Slice(s: bytes, start: int, end: int): bytes {
    var k := SliceLen(|s|, start, end);
    if k == 0 then [] else s[Position(|s|, start)..Position(|s|, start) + k]
  }

  /** Positions inside the string, then those that are moved into it, and those that leave nothing. */
  lemma SliceExactly(s: bytes, a: nat, b: nat)
    ensures a <= b < |s| ==> Slice(s, a, b) == s[a..b + 1]
    ensures a < |s| <= b ==> Slice(s, a, b) == s[a..]
    ensures a > b || a >= |s| ==> Slice(s, a, b) == []
  {
  }

  /** A negative position counts from the end, -1 being the last byte, and not further than to the first. */
  lemma SliceFromEnd(s: bytes, i: nat, other: int)
    requires i > 0
    ensures var p := if i <= |s| then |s| - i else 0;
            Slice(s, 0 - i, other) == Slice(s, p, other) && Slice(s, other, 0 - i) == Slice(s, other, p)
  {
  }

  /** Cutting a string at any point: the two slices put together are the whole. */
  lemma SliceSplits(s: bytes, n: nat)
    requires n <= |s|
    ensures Slice(s, n, -1) == s[n..]
    ensures n > 0 ==> Slice(s, 0, n - 1) + Slice(s, n, -1) == s
  {
    if n > 0 {
      assert s == s[..n] + s[n..];
    }
  }

  /** memmove of n bytes to the front of their own buffer. */
  method MoveToFront(buf: array<byte>, start: nat, n: nat)
    requires start + n <= buf.Length
    modifies buf
    ensures buf[..n] == old(buf[start..start + n])
  {
    forall i | 0 <= i < n {
      buf[i] := buf[start + i];
    }
  }

  class Sds {
    var len: int
    var free: int
    var buf: array<byte>

    /** Header and buffer agree; the NUL is not required while a string is being written. */
    ghost predicate Shape()
      reads this
    {
      0 <= len && 0 <= free && len + free <= INT_MAX && buf.Length == len + free + 1
    }

    ghost predicate Valid()
      reads this, buf
    {
      Shape() && buf[len] == 0
    }

    ghost function Contents(): (s: bytes)
      requires Shape()
      reads this, buf
      ensures |s| == len
    {
      buf[..len]
    }

    /** sdsnewlen. */
    constructor (init: bytes)
      requires |init| <= INT_MAX
      ensures Valid() && fresh(buf)
      ensures Contents() == init && free == 0
    {
      len := |init|;
      free := 0;
      buf := new byte[|init| + 1](i requires 0 <= i < |init| + 1 => if i < |init| then init[i] else 0);
    }

    /** sdsavail. */
    method Avail() returns (n: int)
      ensures n == free
    {
      n := free;
    }

    /** sdsMakeRoomFor: room for addlen more bytes; the text stays, as does a NUL after it. */
    method MakeRoomFor(addlen: nat)
      requires Shape() && len + addlen + SDS_MAX_PREALLOC <= INT_MAX
      modifies this
      ensures Shape() && free >= addlen && len == old(len)
      ensures buf == old(buf) || fresh(buf)
      ensures Contents() == old(Contents())
      ensures old(buf[len]) == 0 ==> buf[len] == 0
      ensures old(free) >= addlen ==> free == old(free)
      ensures old(free) < addlen ==>
                free == addlen + if len + addlen < SDS_MAX_PREALLOC then len + addlen else SDS_MAX_PREALLOC
    {
      if free >= addlen {
        return;
      }
      var newlen := len + addlen;
      if newlen < SDS_MAX_PREALLOC {
        newlen := newlen * 2;
      } else {
        newlen := newlen + SDS_MAX_PREALLOC;
      }
      var newbuf := new byte[newlen + 1];
      forall i | 0 <= i < len + free + 1 && i < newlen + 1 {
        newbuf[i] := buf[i];
      }
      free := newlen - len;
      buf := newbuf;
    }

    /** sdscatlen: appends t. */
    method CatLen(t: bytes)
      requires Valid() && len + |t| + SDS_MAX_PREALLOC <= INT_MAX
      modifies this, buf
      ensures Valid() && Contents() == old(Contents()) + t
      ensures buf == old(buf) || fresh(buf)
    {
      var curlen := len;
      MakeRoomFor(|t|);
      forall i | 0 <= i < |t| {
        buf[curlen + i] := t[i];
      }
      len := curlen + |t|;
      free := free - |t|;
      buf[curlen + |t|] := 0;
    }

    /** The first half of sdsrange: where the slice starts and how long it is. */
    method SliceBounds(start0: int, end0: int) returns (start: int, newlen: nat)
      requires Valid() && len > 0
      ensures newlen == SliceLen(len, start0, end0) <= len
      ensures newlen > 0 ==> start == Position(len, start0) && start + newlen <= len
    {
      start := start0;
      var end := end0;
      if start < 0 {
        start := len + start;
        if start < 0 { start := 0; }
      }
      if end < 0 {
        end := len + end;
        if end < 0 { end := 0; }
      }
      newlen := if start > end then 0 else end - start + 1;
      if newlen != 0 {
        if start >= len {
          newlen := 0;
        } else if end >= len {
          end := len - 1;
          newlen := 0;
          if start <= end { newlen := end - start + 1; }
        }
      } else {
        start := 0;
      }
    }

    /** sdsrange: cuts the string down to one slice of itself, in place. */
    method Range(start0: int, end0: int)
      requires Valid()
      modifies this, buf
      ensures Valid() && buf == old(buf)
      ensures Contents() == Slice(old(Contents()), start0, end0)
      ensures len + free == old(len + free)
    {
      if len == 0 {
        return;
      }
      var start, newlen := SliceBounds(start0, end0);
      if start != 0 && newlen != 0 {
        MoveToFront(buf, start, newlen);
      }
      buf[newlen] := 0;
      free := free + (len - newlen);
      len := newlen;
    }
  }
}
