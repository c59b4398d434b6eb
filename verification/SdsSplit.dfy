/** sdssplitlen and sdsjoinsds (sds.c): splitting at a separator, and its inverse. */
module SdsSplit {
  import opened Bytes
  import opened SdsString

  predicate OccursAt(s: bytes, sep: bytes, i: int) {
    0 <= i && i + |sep| <= |s| && s[i..i + |sep|] == sep
  }

  /** The first place where sep occurs in s, or -1. */
  function FirstSep(s: bytes, sep: bytes): (k: int)
    requires sep != []
    ensures k >= 0 ==> OccursAt(s, sep, k)
    ensures k >= -1 && forall i :: 0 <= i < (if k < 0 then |s| else k) ==> !OccursAt(s, sep, i)
  {
    if |s| < |sep| then -1
    else if s[..|sep|] == sep then 0
    else
      var r := FirstSep(s[1..], sep);
      OccursInTail(s, sep);
      if r < 0 then -1 else r + 1
  }

  lemma OccursInTail(s: bytes, sep: bytes)
    requires s != []
    ensures forall i :: 0 < i ==> OccursAt(s, sep, i) == OccursAt(s[1..], sep, i - 1)
  {
    forall i | 0 < i ensures OccursAt(s, sep, i) == OccursAt(s[1..], sep, i - 1) {
      if i + |sep| <= |s| {
        SubSlice(s, 1, i - 1, i - 1 + |sep|);
      }
    }
  }

  lemma FirstSepUnique(s: bytes, sep: bytes, k: nat)
    requires sep != [] && OccursAt(s, sep, k)
    requires forall i :: 0 <= i < k ==> !OccursAt(s, sep, i)
    ensures FirstSep(s, sep) == k
  {
    var r := FirstSep(s, sep);
    assert r < 0 ==> !OccursAt(s, sep, k);
  }

  /** The tokens of s; at least one, the last of them possibly empty. */
  function Tokens(s: bytes, sep: bytes): (ts: seq<bytes>)
    requires sep != []
    ensures ts != []
    decreases |s|
  {
    var k := FirstSep(s, sep);
    if k < 0 then [s] else [s[..k]] + Tokens(s[k + |sep|..], sep)
  }

  /** The empty string has no tokens at all. */
  function Split(s: bytes, sep: bytes): seq<bytes>
    requires sep != []
  {
    if s == [] then [] else Tokens(s, sep)
  }

  function Join(ts: seq<bytes>, sep: bytes): bytes {
    if ts == [] then [] else if |ts| == 1 then ts[0] else ts[0] + sep + Join(ts[1..], sep)
  }

  /** Lists that can come out of a split: in t + sep the separator is first met at the end of t. */
  ghost predicate Splittable(ts: seq<bytes>, sep: bytes)
    requires sep != []
  {
    && ts != [[]]
    && (ts != [] ==> FirstSep(ts[|ts| - 1], sep) < 0)
    && forall i :: 0 <= i < |ts| - 1 ==> FirstSep(ts[i] + sep, sep) == |ts[i]|
  }

  lemma {:induction false} JoinTokens(s: bytes, sep: bytes)
    requires sep != []
    ensures Join(Tokens(s, sep), sep) == s
    decreases |s|
  {
    var k := FirstSep(s, sep);
    if k >= 0 {
      JoinTokens(s[k + |sep|..], sep);
      assert ([s[..k]] + Tokens(s[k + |sep|..], sep))[1..] == Tokens(s[k + |sep|..], sep);
      assert s == s[..k] + sep + s[k + |sep|..];
    }
  }

  /** Joining undoes splitting, on every string. */
  lemma JoinSplit(s: bytes, sep: bytes)
    requires sep != []
    ensures Join(Split(s, sep), sep) == s
  {
    JoinTokens(s, sep);
  }

  lemma OccursInPrefix(s: bytes, sep: bytes, n: nat, i: int)
    requires n <= |s|
    ensures OccursAt(s[..n], sep, i) == (i + |sep| <= n && OccursAt(s, sep, i))
  {
    if 0 <= i && i + |sep| <= n {
      assert s[..n][i..i + |sep|] == s[i..i + |sep|];
    }
  }

  lemma PrefixSep(s: bytes, sep: bytes)
    requires sep != [] && FirstSep(s, sep) >= 0
    ensures FirstSep(s[..FirstSep(s, sep)] + sep, sep) == FirstSep(s, sep)
    ensures FirstSep(s[..FirstSep(s, sep)], sep) < 0
  {
    hide FirstSep;
    var k := FirstSep(s, sep);
    assert s[..k] + sep == s[..k + |sep|];
    OccursInPrefix(s, sep, k + |sep|, k);
    var t := s[..k + |sep|];
    forall i | 0 <= i < k ensures !OccursAt(t, sep, i) {
      OccursInPrefix(s, sep, k + |sep|, i);
      assert !OccursAt(s, sep, i);
    }
    FirstSepUnique(t, sep, k);
    OccursInPrefix(s, sep, k, FirstSep(s[..k], sep));
  }

  lemma {:induction false} TokensClean(s: bytes, sep: bytes)
    requires sep != []
    ensures var ts := Tokens(s, sep);
            && FirstSep(ts[|ts| - 1], sep) < 0
            && (forall i :: 0 <= i < |ts| - 1 ==> FirstSep(ts[i] + sep, sep) == |ts[i]|)
            && (forall i :: 0 <= i < |ts| ==> FirstSep(ts[i], sep) < 0)
    decreases |s|
  {
    hide FirstSep;
    var k := FirstSep(s, sep);
    if k >= 0 {
      PrefixSep(s, sep);
      var rest := s[k + |sep|..];
      TokensClean(rest, sep);
      var ts := [s[..k]] + Tokens(rest, sep);
      assert forall i :: 0 < i < |ts| ==> ts[i] == Tokens(rest, sep)[i - 1];
    }
  }

  /** No token of a split holds the separator. */
  lemma NoTokenHoldsSep(s: bytes, sep: bytes, i: nat, j: int)
    requires sep != [] && i < |Split(s, sep)|
    ensures !OccursAt(Split(s, sep)[i], sep, j)
  {
    TokensClean(s, sep);
    var t := Split(s, sep)[i];
    assert FirstSep(t, sep) < 0;
  }

  lemma SepAfterToken(t: bytes, sep: bytes, rest: bytes)
    requires sep != [] && FirstSep(t + sep, sep) == |t|
    ensures FirstSep(t + sep + rest, sep) == |t|
  {
    hide FirstSep;
    var s := t + sep + rest;
    assert s[..|t + sep|] == t + sep;
    forall i | 0 <= i <= |t| ensures OccursAt(t + sep, sep, i) == OccursAt(s, sep, i) {
      OccursInPrefix(s, sep, |t + sep|, i);
    }
    FirstSepUnique(s, sep, |t|);
  }

  lemma {:induction false} TokensJoin(ts: seq<bytes>, sep: bytes)
    requires sep != [] && ts != []
    requires FirstSep(ts[|ts| - 1], sep) < 0
    requires forall i :: 0 <= i < |ts| - 1 ==> FirstSep(ts[i] + sep, sep) == |ts[i]|
    ensures Tokens(Join(ts, sep), sep) == ts
    decreases |ts|
  {
    hide FirstSep, OccursAt;
    if |ts| > 1 {
      var rest := Join(ts[1..], sep);
      TokensJoin(ts[1..], sep);
      SepAfterToken(ts[0], sep, rest);
      var s := ts[0] + sep + rest;
      assert s[..|ts[0]|] == ts[0] && s[|ts[0]| + |sep|..] == rest;
      assert [ts[0]] + ts[1..] == ts;
    }
  }

  /** Splitting undoes joining exactly for the lists that a split can produce. */
  lemma {:induction false} SplitJoin(ts: seq<bytes>, sep: bytes)
    requires sep != []
    ensures Split(Join(ts, sep), sep) == ts <==> Splittable(ts, sep)
  {
    hide FirstSep, Tokens;
    if Split(Join(ts, sep), sep) == ts {
      TokensClean(Join(ts, sep), sep);
      assert ts != [[]];
    } else if Splittable(ts, sep) && ts != [] {
      TokensJoin(ts, sep);
      JoinedNonEmpty(ts, sep);
    }
  }

  /** Tokens free of the separator are not enough: the end of one and the separator may hold an earlier occurrence. */
  lemma CleanTokensMayNotReturn()
    ensures var ts: seq<bytes>, sep: bytes := [[1], [2]], [1, 1];
            && (forall i, j :: 0 <= i < |ts| ==> !OccursAt(ts[i], sep, j))
            && Split(Join(ts, sep), sep) != ts
  {
    var ts: seq<bytes>, sep: bytes := [[1], [2]], [1, 1];
    assert OccursAt(ts[0] + sep, sep, 0);
    assert FirstSep(ts[0] + sep, sep) == 0;
    assert !Splittable(ts, sep);
    SplitJoin(ts, sep);
  }

  lemma JoinedNonEmpty(ts: seq<bytes>, sep: bytes)
    requires sep != [] && ts != [] && ts != [[]]
    ensures Join(ts, sep) != []
  {
    if |ts| == 1 {
      assert ts == [ts[0]];
    } else {
      assert |ts[0] + sep + Join(ts[1..], sep)| >= |sep|;
    }
  }

  // ------------------------------------------------------------------ the code

  /** sdssplitlen; None where it returns NULL. The token array grows so that two more tokens always fit. */
  method SplitLen(s: bytes, sep: bytes) returns (r: Option<seq<bytes>>)
    ensures r == if sep == [] then None else Some(Split(s, sep))
  {
    hide FirstSep, Tokens, OccursAt, Clear;
    if |sep| < 1 {
      return None;
    }
    var slots, elements, start := 5, 0, 0;
    var tokens := new bytes[slots](_ => []);
    if |s| == 0 {
      return Some([]);
    }
    var j := 0;
    assert s[0..] == s && tokens[..0] == [];
    ClearHere(s, sep, 0);
    while j < |s| - (|sep| - 1)
      invariant fresh(tokens) && 0 <= elements && elements + 1 <= slots == tokens.Length
      invariant 0 <= start <= j && start <= |s| && Clear(s, sep, start, j)
      invariant tokens[..elements] + Tokens(s[start..], sep) == Split(s, sep)
    {
      if slots < elements + 2 {
        tokens := Grow(tokens, slots * 2);
        slots := slots * 2;
      }
      SepAt(s, sep, j);
      ClearStep(s, sep, start, j);
      if (|sep| == 1 && s[j] == sep[0]) || s[j..j + |sep|] == sep {
        SeparatorFound(s, sep, start, j);
        Regroup(tokens[..elements], [s[start..j]], Tokens(s[j + |sep|..], sep));
        StoreToken(tokens, elements, s[start..j]);
        elements := elements + 1;
        start := j + |sep|;
        j := j + |sep| - 1;
        ClearHere(s, sep, start);
      }
      j := j + 1;
    }
    LastToken(s, sep, start, j);
    StoreToken(tokens, elements, s[start..]);
    elements := elements + 1;
    r := Some(tokens[..elements]);
  }

  method StoreToken(tokens: array<bytes>, elements: nat, t: bytes)
    requires elements < tokens.Length
    modifies tokens
    ensures tokens[..elements + 1] == old(tokens[..elements]) + [t]
  {
    tokens[elements] := t;
  }

  lemma Regroup(a: seq<bytes>, b: seq<bytes>, c: seq<bytes>)
    ensures a + (b + c) == a + b + c
  {
  }

  /** realloc of the token array. */
  method Grow(tokens: array<bytes>, slots: nat) returns (r: array<bytes>)
    requires slots >= tokens.Length
    ensures fresh(r) && r.Length == slots && r[..tokens.Length] == tokens[..]
  {
    r := new bytes[slots](i reads tokens => if 0 <= i < tokens.Length then tokens[i] else []);
  }

  lemma ShiftOccurs(s: bytes, sep: bytes, start: nat, i: nat)
    requires start <= |s|
    ensures OccursAt(s[start..], sep, i) == OccursAt(s, sep, start + i)
  {
    if start + i + |sep| <= |s| {
      SubSlice(s, start, i, i + |sep|);
    }
  }

  lemma SepAt(s: bytes, sep: bytes, j: nat)
    requires sep != [] && j + |sep| <= |s|
    ensures (|sep| == 1 && s[j] == sep[0]) || s[j..j + |sep|] == sep <==> OccursAt(s, sep, j)
  {
    if |sep| == 1 {
      assert s[j..j + 1] == [s[j]] && sep == [sep[0]];
    }
  }

  lemma DropSlices(s: bytes, start: nat, j: nat, n: nat)
    requires start <= j && j + n <= |s|
    ensures s[start..][..j - start] == s[start..j]
    ensures s[start..][j - start + n..] == s[j + n..]
  {
  }

  lemma OccursFits(s: bytes, sep: bytes, j: int)
    requires OccursAt(s, sep, j)
    ensures 0 <= j && j + |sep| <= |s|
  {
  }

  /** No separator between start and j. */
  ghost predicate Clear(s: bytes, sep: bytes, start: int, j: int) {
    forall i :: start <= i < j ==> !OccursAt(s, sep, i)
  }

  lemma ClearHere(s: bytes, sep: bytes, start: int)
    ensures Clear(s, sep, start, start)
  {
  }

  lemma ClearStep(s: bytes, sep: bytes, start: int, j: int)
    requires Clear(s, sep, start, j)
    ensures !OccursAt(s, sep, j) ==> Clear(s, sep, start, j + 1)
  {
    hide OccursAt;
  }

  lemma FoundInRest(s: bytes, sep: bytes, start: nat, j: nat)
    requires sep != [] && start <= j && OccursAt(s, sep, j)
    requires Clear(s, sep, start, j)
    ensures j + |sep| <= |s| && FirstSep(s[start..], sep) == j - start
  {
    hide FirstSep, OccursAt;
    OccursFits(s, sep, j);
    ShiftOccurs(s, sep, start, j - start);
    forall i | 0 <= i < j - start ensures !OccursAt(s[start..], sep, i) {
      ShiftOccurs(s, sep, start, i);
    }
    FirstSepUnique(s[start..], sep, j - start);
  }

  lemma TokensAt(r: bytes, sep: bytes, k: nat)
    requires sep != [] && FirstSep(r, sep) == k
    ensures k + |sep| <= |r| && Tokens(r, sep) == [r[..k]] + Tokens(r[k + |sep|..], sep)
  {
    hide FirstSep;
  }

  lemma SeparatorFound(s: bytes, sep: bytes, start: nat, j: nat)
    requires sep != [] && start <= j && OccursAt(s, sep, j)
    requires Clear(s, sep, start, j)
    ensures j + |sep| <= |s| && Tokens(s[start..], sep) == [s[start..j]] + Tokens(s[j + |sep|..], sep)
  {
    hide FirstSep, OccursAt, Tokens, Clear;
    FoundInRest(s, sep, start, j);
    TokensAt(s[start..], sep, j - start);
    DropSlices(s, start, j, |sep|);
  }

  lemma LastToken(s: bytes, sep: bytes, start: nat, j: int)
    requires sep != [] && start <= |s| && j >= |s| - (|sep| - 1)
    requires Clear(s, sep, start, j)
    ensures Tokens(s[start..], sep) == [s[start..]]
  {
    var k := FirstSep(s[start..], sep);
    if k >= 0 {
      ShiftOccurs(s, sep, start, k);
    }
  }

  /** sdsjoinsds. */
  method JoinSds(argv: seq<bytes>, sep: bytes) returns (join: Sds)
    requires |Join(argv, sep)| + SDS_MAX_PREALLOC <= INT_MAX
    ensures fresh(join) && join.Valid() && join.Contents() == Join(argv, sep)
  {
    join := new Sds([]);
    assert argv[0..] == argv;
    for j := 0 to |argv|
      invariant fresh(join) && fresh(join.buf) && join.Valid()
      invariant join.Contents() + Join(argv[j..], sep) == Join(argv, sep)
    {
      JoinHead(argv, sep, j, join.Contents());
      join.CatLen(argv[j]);
      if j != |argv| - 1 {
        join.CatLen(sep);
      }
    }
  }

  lemma JoinHead(argv: seq<bytes>, sep: bytes, j: nat, before: bytes)
    requires j < |argv|
    ensures before + Join(argv[j..], sep)
         == if j == |argv| - 1 then before + argv[j] + Join(argv[j + 1..], sep)
            else before + argv[j] + sep + Join(argv[j + 1..], sep)
  {
    var ts := argv[j..];
    assert ts[1..] == argv[j + 1..];
    var rest := Join(ts[1..], sep);
    if j != |argv| - 1 {
      assert before + (ts[0] + sep + rest) == before + ts[0] + sep + rest;
    }
  }
}
