/**
 The chained hash table (dict.c), on a heap of linked entries: it behaves as a finite map from keys to values,
 through every resize. Keys are byte strings, compared and hashed by content, as the async callbacks do it.
 */
module Dict {
  import opened Bytes

  const DICT_HT_INITIAL_SIZE: nat := 4

  // --------------------------------------------------------------------- hash

  const UINT_RANGE: nat := 0x1_0000_0000

  function HashFrom(h: nat, s: bytes): nat
    decreases |s|
  {
    if s == [] then h else HashFrom((h * 33 + s[0]) % UINT_RANGE, s[1..])
  }

  function Hash(s: bytes): nat {
    HashFrom(5381, s)
  }

  /** dictGenHashFunction, in 32-bit unsigned arithmetic. */
  method GenHashFunction(buf: bytes) returns (hash: nat)
    ensures hash == Hash(buf)
  {
    hash := 5381;
    assert buf[0..] == buf;
    for i := 0 to |buf|
      invariant HashFrom(hash, buf[i..]) == Hash(buf)
    {
      assert buf[i..][1..] == buf[i + 1..];
      hash := (hash * 33 + buf[i]) % UINT_RANGE;
    }
  }

  /** The bytes as digits of base 33, behind the digit 5381. */
  function Base33(s: bytes): nat {
    if s == [] then 5381 else 33 * Base33(s[..|s| - 1]) + s[|s| - 1]
  }

  lemma {:induction false} HashSnoc(h: nat, s: bytes, x: byte)
    ensures HashFrom(h, s + [x]) == (HashFrom(h, s) * 33 + x) % UINT_RANGE
    decreases |s|
  {
    if s == [] {
      assert s + [x] == [x];
    } else {
      assert (s + [x])[1..] == s[1..] + [x];
      HashSnoc((h * 33 + s[0]) % UINT_RANGE, s[1..], x);
    }
  }

  lemma WrapInside(v: nat, x: nat)
    ensures (v % UINT_RANGE * 33 + x) % UINT_RANGE == (33 * v + x) % UINT_RANGE
  {
  }

  /** The hash is a number of base 33, with the arithmetic wrapped around once, at the end. */
  lemma {:induction false} HashIsBase33(s: bytes)
    ensures Hash(s) == Base33(s) % UINT_RANGE
  {
    if s != [] {
      var front, last := s[..|s| - 1], s[|s| - 1];
      assert s == front + [last];
      HashIsBase33(front);
      HashSnoc(5381, front, last);
      WrapInside(Base33(front), last);
    }
  }

  /** The slot of a key: the remainder that masking with the size less one leaves, see MaskKeepsRemainder. */
  function Slot(key: bytes, size: nat): (i: nat)
    requires size > 0
    ensures i < size
  {
    Hash(key) % size
  }

  /** The sizes a table can have. */
  predicate IsTableSize(n: nat)
    ensures IsTableSize(n) ==> n >= 4 && n % 2 == 0
  {
    n == 4 || (n > 4 && n % 2 == 0 && IsTableSize(n / 2))
  }

  /** _dictNextPower: the smallest table size that holds `size` entries. */
  method NextPower(size: nat) returns (i: nat)
    ensures IsTableSize(i) && i >= size
    ensures i > 4 ==> i / 2 < size
    ensures IsTableSize(size) ==> i == size
  {
    hide IsTableSize;
    i := DICT_HT_INITIAL_SIZE;
    FirstSize();
    while i < size
      invariant IsTableSize(i) && (i > 4 ==> i / 2 < size)
      invariant IsTableSize(size) ==> i <= size
      decreases size - i
    {
      DoublingStaysBelow(i, size);
      DoubleIsSize(i);
      i := i * 2;
    }
  }

  lemma FirstSize()
    ensures IsTableSize(DICT_HT_INITIAL_SIZE)
  {
  }

  lemma DoubleIsSize(i: nat)
    requires IsTableSize(i)
    ensures IsTableSize(i * 2) && i * 2 / 2 == i
  {
  }

  lemma {:induction false} DoublingStaysBelow(i: nat, size: nat)
    requires IsTableSize(i) && i < size
    ensures IsTableSize(size) ==> i * 2 <= size
    decreases size
  {
    if IsTableSize(size) {
      assert IsTableSize(size / 2);
      if i > 4 {
        DoublingStaysBelow(i / 2, size / 2);
      }
    }
  }

  /** a & b, bit by bit. */
  function And(a: nat, b: nat): nat {
    if a == 0 || b == 0 then 0 else a % 2 * (b % 2) + 2 * And(a / 2, b / 2)
  }

  lemma LowBitAside(h: nat, m: nat)
    requires m > 0
    ensures h % (2 * m) == h % 2 + 2 * (h / 2 % m)
  {
    var q, r := h / 2 / m, h / 2 % m;
    assert h / 2 == m * q + r && h == 2 * (h / 2) + h % 2;
    assert h == 2 * m * q + (2 * r + h % 2);
    RemainderIs(h, 2 * m, q, 2 * r + h % 2);
  }

  lemma ProductsApart(d: nat, a: nat, b: nat)
    requires a < b
    ensures d * a + d <= d * b
  {
    assert d * b == d * a + d * (b - a) && d * (b - a) == d + d * (b - a - 1);
  }

  lemma RemainderIs(h: nat, d: nat, q: nat, r: nat)
    requires h == d * q + r && r < d
    ensures h % d == r
  {
    var p := h / d;
    assert h == d * p + h % d;
    if q < p {
      ProductsApart(d, q, p);
    } else if p < q {
      ProductsApart(d, p, q);
    }
  }

  lemma AndStep(h: nat, m: nat)
    requires m > 0
    ensures And(h, 2 * m - 1) == h % 2 + 2 * And(h / 2, m - 1) && And(h, 0) == 0
  {
    assert (2 * m - 1) % 2 == 1 && (2 * m - 1) / 2 == m - 1;
  }

  /** For the size of a table the mask size - 1 keeps exactly the remainder. */
  lemma {:induction false} MaskKeepsRemainder(h: nat, size: nat)
    requires IsTableSize(size)
    ensures And(h, size - 1) == h % size
    decreases size
  {
    hide And;
    var m := size / 2;
    LowBitAside(h, m);
    AndStep(h, m);
    if size == 4 {
      AndStep(h / 2, 1);
      AndStep(h / 2 / 2, 1);
    } else {
      MaskKeepsRemainder(h / 2, m);
    }
  }

  /** dictHashKey(key) & sizemask. */
  method MaskedSlot(key: bytes, sizemask: nat, ghost size: nat) returns (h: nat)
    requires IsTableSize(size) && sizemask == size - 1
    ensures h == Slot(key, size)
  {
    hide IsTableSize, And;
    var hash := GenHashFunction(key);
    MaskKeepsRemainder(hash, size);
    h := And(hash, sizemask);
  }

  // -------------------------------------------------------------------- chains

  class Entry<V> {
    var key: bytes
    var val: V
    var next: Entry?<V>

    constructor (key: bytes, val: V, next: Entry?<V>)
      ensures this.key == key && this.val == val && this.next == next
    {
      this.key, this.val, this.next := key, val, next;
    }
  }

  ghost function NodeAt<V>(nodes: seq<Entry<V>>, a: nat): Entry?<V> {
    if a < |nodes| then nodes[a] else null
  }

  /** The linked list that starts at p consists of these nodes. */
  ghost predicate Linked<V>(p: Entry?<V>, nodes: seq<Entry<V>>)
    reads nodes
  {
    p == NodeAt(nodes, 0) && forall a :: 0 <= a < |nodes| ==> nodes[a].next == NodeAt(nodes, a + 1)
  }

  ghost predicate NoDup<V>(nodes: seq<Entry<V>>) {
    forall a, b :: 0 <= a < b < |nodes| ==> nodes[a] != nodes[b]
  }

  lemma LinkedTail<V>(p: Entry?<V>, nodes: seq<Entry<V>>)
    requires Linked(p, nodes)
    ensures p == null <==> nodes == []
    ensures nodes != [] ==> p == nodes[0] && Linked(nodes[0].next, nodes[1..])
  {
    if nodes != [] {
      var tail := nodes[1..];
      assert nodes[0].next == NodeAt(nodes, 1);
      forall a | 0 <= a < |tail| ensures tail[a].next == NodeAt(tail, a + 1) {
        assert tail[a] == nodes[a + 1];
      }
    }
  }

  ghost function Nodes<V>(nodes: seq<Entry<V>>): set<Entry<V>> {
    set e | e in nodes
  }

  lemma {:induction false} NodesSize<V>(nodes: seq<Entry<V>>)
    requires NoDup(nodes)
    ensures |Nodes(nodes)| == |nodes|
  {
    if nodes != [] {
      NodesSize(nodes[1..]);
      assert nodes == [nodes[0]] + nodes[1..];
      assert Nodes(nodes) == {nodes[0]} + Nodes(nodes[1..]);
      assert nodes[0] !in nodes[1..];
    }
  }

  /** The array holds the chains of exactly these entries, each in the chain of its key's slot. */
  ghost predicate Holds<V>(table: array<Entry?<V>>, chains: seq<seq<Entry<V>>>, all: set<Entry<V>>)
    reads table, all
  {
    && table.Length == |chains|
    && (forall i :: 0 <= i < |chains| ==> Nodes(chains[i]) <= all && NoDup(chains[i]) && Linked(table[i], chains[i]))
    && (forall i, e :: 0 <= i < |chains| && e in chains[i] ==> Slot(e.key, |chains|) == i)
    && (forall e :: e in all ==> |chains| > 0 && e in chains[Slot(e.key, |chains|)])
  }

  /** Putting an entry at the front of its chain: the linking step of dictAdd and of dictExpand. */
  method Link<V>(table: array<Entry?<V>>, ghost chains: seq<seq<Entry<V>>>, ghost all: set<Entry<V>>, h: nat,
                 he: Entry<V>)
    requires Holds(table, chains, all) && he !in all && table.Length > 0 && h == Slot(he.key, table.Length)
    modifies table, he`next
    ensures Holds(table, chains[h := [he] + chains[h]], all + {he})
  {
    hide Slot, NoDup;
    ghost var chains' := chains[h := [he] + chains[h]];
    he.next := table[h];
    table[h] := he;
    NoDupCons(he, chains[h]);
    LinkedCons(he, chains[h]);
    forall i | 0 <= i < |chains'|
      ensures Nodes(chains'[i]) <= all + {he} && NoDup(chains'[i]) && Linked(table[i], chains'[i])
    {
      if i != h {
        assert Nodes(chains[i]) <= all;
      }
    }
    forall e | e in all + {he} ensures e in chains'[Slot(e.key, |chains'|)] {
    }
  }

  lemma NoDupCons<V>(he: Entry<V>, nodes: seq<Entry<V>>)
    requires NoDup(nodes) && he !in nodes
    ensures NoDup([he] + nodes)
  {
  }

  lemma LinkedCons<V>(he: Entry<V>, nodes: seq<Entry<V>>)
    requires Linked(he.next, nodes)
    ensures Linked(he, [he] + nodes)
  {
    var all := [he] + nodes;
    forall a | 0 <= a < |all| ensures all[a].next == NodeAt(all, a + 1) {
      if a > 0 {
        assert all[a] == nodes[a - 1] && nodes[a - 1].next == NodeAt(nodes, a);
      }
    }
  }

  // --------------------------------------------------------------- the table

  /** Keys are unique, and the entries are those of the map m. */
  ghost predicate Means<V>(all: set<Entry<V>>, m: map<bytes, V>)
    reads all
  {
    && (forall x, y :: x in all && y in all && x.key == y.key ==> x == y)
    && (forall e :: e in all ==> e.key in m && m[e.key] == e.val)
    && (forall k :: k in m ==> exists e :: e in all && e.key == k)
  }

  class HashTable<V> {
    var table: array<Entry?<V>>
    var size: nat
    var sizemask: nat
    var used: nat
    ghost var chains: seq<seq<Entry<V>>>  // the entries of each slot, in order
    ghost var all: set<Entry<V>>          // every entry
    ghost var M: map<bytes, V>            // what the table means

    ghost predicate Valid()
      reads this, table, all
    {
      && size == |chains| && (size == 0 || (IsTableSize(size) && sizemask == size - 1))
      && Holds(table, chains, all)
      && Means(all, M)
      && used == |all| <= size
    }

    /** dictCreate. */
    constructor ()
      ensures Valid() && M == map[] && all == {} && fresh(table)
    {
      table := new Entry?<V>[0];
      size, sizemask, used := 0, 0, 0;
      chains, all, M := [], {}, map[];
    }

    /** dictFind: the entry of the key, or NULL. */
    method Find(key: bytes) returns (he: Entry?<V>)
      requires Valid()
      ensures he == null <==> key !in M
      ensures he != null ==> he in all && he.key == key && M[key] == he.val
    {
      hide Means, Holds, Slot, IsTableSize, NoDup, HashTable.Valid;
      TableFacts(this);
      if size == 0 {
        return null;
      }
      var h := MaskedSlot(key, sizemask, size);
      he := FindIn(h, key);
    }

    /** The search loop of dictFind. */
    method FindIn(h: nat, key: bytes) returns (he: Entry?<V>)
      requires Valid() && size > 0 && h == Slot(key, size)
      ensures he == null <==> key !in M
      ensures he != null ==> he in all && he.key == key && M[key] == he.val
    {
      hide Means, Holds, Slot, IsTableSize, NoDup, HashTable.Valid;
      TableFacts(this);
      ghost var nodes, a := chains[h], 0;
      he := table[h];
      LinkedTail(he, nodes);
      assert nodes[0..] == nodes;
      while he != null
        invariant a <= |nodes| && Linked(he, nodes[a..])
        invariant forall b :: 0 <= b < a ==> nodes[b].key != key
        decreases |nodes| - a
      {
        LinkedTail(he, nodes[a..]);
        if he.key == key {
          ChainInAll(table, chains, all, h, a);
          MeansFound(all, M, he);
          return;
        }
        assert nodes[a..][1..] == nodes[a + 1..];
        he := he.next;
        a := a + 1;
      }
      LinkedTail(he, nodes[a..]);
      KeyMissing(table, chains, all, M, key);
    }

    /** The inner loop of dictExpand: every entry of one old chain moves to the new table. */
    method MoveChain(he0: Entry?<V>, ghost rest0: seq<Entry<V>>, n: array<Entry?<V>>, mask: nat,
                     ghost chains0: seq<seq<Entry<V>>>, ghost moved0: set<Entry<V>>)
      returns (ghost chains': seq<seq<Entry<V>>>)
      requires Linked(he0, rest0) && NoDup(rest0) && Nodes(rest0) !! moved0
      requires IsTableSize(n.Length) && mask == n.Length - 1 && Holds(n, chains0, moved0) && used >= |rest0|
      modifies n, Nodes(rest0)`next, this`used
      ensures Holds(n, chains', moved0 + Nodes(rest0)) && used == old(used) - |rest0|
    {
      hide NoDup, Slot, Holds, Linked, Nodes, IsTableSize;
      chains' := chains0;
      ghost var moved, rest := moved0, rest0;
      var he := he0;
      while he != null
        invariant Linked(he, rest) && NoDup(rest) && Nodes(rest) <= Nodes(rest0)
        invariant Nodes(rest) !! moved && moved + Nodes(rest) == moved0 + Nodes(rest0)
        invariant used - |rest| == old(used) - |rest0| && used >= |rest|
        invariant Holds(n, chains', moved) && n.Length > 0
        decreases |rest|
      {
        LinkedTail(he, rest);
        NodesTail(rest);
        var nextHe := he.next;
        var h := MaskedSlot(he.key, mask, n.Length);
        SlotsFit(n, chains', moved);
        Link(n, chains', moved, h, he);
        chains' := chains'[h := [he] + chains'[h]];
        moved := moved + {he};
        rest := rest[1..];
        used := used - 1;
        he := nextHe;
      }
      LinkedTail(he, rest);
      NoNodes(rest);
      assert moved == moved0 + Nodes(rest0);
    }

    /** One turn of the outer loop of dictExpand. */
    method MoveSlot(i: nat, n: array<Entry?<V>>, mask: nat, ghost chains0: seq<seq<Entry<V>>>,
                    ghost left: set<Entry<V>>)
      returns (ghost chains': seq<seq<Entry<V>>>, ghost left': set<Entry<V>>)
      requires i < size == |chains| == table.Length && n != table && IsTableSize(n.Length) && mask == n.Length - 1
      requires left <= all && used == |left| && ToMove(table, chains, left, i) && Holds(n, chains0, all - left)
      modifies n, left`next, this`used
      ensures left' <= left && used == |left'| && ToMove(table, chains, left', i + 1) && Holds(n, chains', all - left')
    {
      hide NoDup, Slot, Linked, Nodes, Holds, ToMove, IsTableSize;
      chains', left' := chains0, left;
      if table[i] != null {
        NextChain(table, chains, left, i);
        left' := left - Nodes(chains[i]);
        chains' := MoveChain(table[i], chains[i], n, mask, chains', all - left);
        MovedOn(table, chains, left, i);
        assert all - left + Nodes(chains[i]) == all - left';
      } else {
        SkippedOn(table, chains, left, i);
      }
    }

    /** The outer loop of dictExpand: when it ends, no entry is left in the old table. */
    method MoveAll(n: array<Entry?<V>>, mask: nat) returns (ghost chains': seq<seq<Entry<V>>>)
      requires size == |chains| && Holds(table, chains, all) && Means(all, M) && used == |all|
      requires n != table && IsTableSize(n.Length) && mask == n.Length - 1
      requires forall i :: 0 <= i < n.Length ==> n[i] == null
      modifies n, all`next, this`used
      ensures Holds(n, chains', all) && Means(all, M) && used == 0
    {
      hide NoDup, Slot, Linked, Nodes, Means, Holds, ToMove, IsTableSize;
      chains' := EmptyTable(n);
      ghost var left := all;
      StartMoving(table, chains, all);
      SlotsFit(table, chains, all);
      assert all - left == {};
      var i := 0;
      while i < size && used > 0
        invariant 0 <= i <= size && used == |left| && left <= all
        invariant ToMove(table, chains, left, i) && Holds(n, chains', all - left)
      {
        chains', left := MoveSlot(i, n, mask, chains', left);
        i := i + 1;
      }
      NothingLeft(table, chains, left, i);
      assert all - left == all;
      MeansKept(all, M);
    }

    /** dictExpand: the same entries, spread over a new table. Refused when they would not fit. */
    method Expand(newsize: nat) returns (ok: bool)
      requires Valid()
      modifies this, all`next
      ensures Valid() && ok == (old(used) <= newsize)
      ensures M == old(M) && all == old(all) && used == old(used)
      ensures ok ==> fresh(table) && size >= newsize && size >= 4 && (IsTableSize(newsize) ==> size == newsize)
      ensures !ok ==> table == old(table) && size == old(size) && chains == old(chains)
    {
      hide NoDup, Slot, Linked, Nodes, Means, Holds, IsTableSize;
      var realsize := NextPower(newsize);
      if used > newsize {
        return false;
      }
      var n := new Entry?<V>[realsize](_ => null);
      var n_used := used;
      ghost var chains' := MoveAll(n, realsize - 1);
      assert used == 0;
      SlotsFit(n, chains', all);
      used := n_used;
      table, size, sizemask, chains := n, realsize, realsize - 1, chains';
      ok := true;
    }

    /** _dictExpandIfNeeded: afterwards there is a free slot's worth of room. */
    method ExpandIfNeeded() returns (ok: bool)
      requires Valid()
      modifies this, all`next
      ensures ok && Valid() && used < size
      ensures size == if old(size) == 0 then 4 else if old(used) == old(size) then 2 * old(size) else old(size)
      ensures M == old(M) && all == old(all)
      ensures table == old(table) || fresh(table)
    {
      hide Means, Holds, IsTableSize, Slot, NoDup, HashTable.Valid;
      FirstSize();
      TableFacts(this);
      if size == 0 {
        ok := Expand(DICT_HT_INITIAL_SIZE);
      } else if used == size {
        ok := Expand(size * 2);
      } else {
        ok := true;
      }
    }

    /** _dictKeyIndex: the slot for a new key, or -1 if the key is there already. */
    method KeyIndex(key: bytes) returns (index: int)
      requires Valid()
      modifies this, all`next
      ensures Valid() && used < size && M == old(M) && all == old(all)
      ensures table == old(table) || fresh(table)
      ensures index == if key in M then -1 else Slot(key, size)
    {
      hide Means, Holds, IsTableSize, Slot, NoDup, HashTable.Valid;
      var ok := ExpandIfNeeded();
      var he := Find(key);
      TableFacts(this);
      var h := MaskedSlot(key, sizemask, size);
      index := if he != null then -1 else h;
    }

    /** dictAdd. */
    method Add(key: bytes, val: V) returns (ok: bool)
      requires Valid()
      modifies this, table, all`next
      ensures Valid() && ok == (key !in old(M))
      ensures M == if ok then old(M)[key := val] else old(M)
      ensures all >= old(all) && fresh(all - old(all))
      ensures table == old(table) || fresh(table)
    {
      hide Means, Holds, Slot, IsTableSize, NoDup, Linked, Nodes;
      var index := KeyIndex(key);
      if index == -1 {
        return false;
      }
      AddAt(index, key, val);
      ok := true;
    }

    /** The end of dictAdd: a new entry in its slot. */
    method AddAt(index: nat, key: bytes, val: V)
      requires Valid() && used < size && key !in M && index == Slot(key, size)
      modifies this, table
      ensures Valid() && M == old(M)[key := val]
      ensures all >= old(all) && fresh(all - old(all)) && table == old(table)
    {
      hide Means, Holds, Slot, IsTableSize, NoDup, Linked, Nodes, HashTable.Valid;
      TableFacts(this);
      var entry := new Entry(key, val, null);
      SlotsFit(table, chains, all);
      Link(table, chains, all, index, entry);
      MeansAdded(all, M, entry);
      chains := chains[index := [entry] + chains[index]];
      all := all + {entry};
      M := M[key := val];
      used := used + 1;
      IsValid(this);
    }

    /** dictReplace: true if the key was added from scratch. */
    method Replace(key: bytes, val: V) returns (added: bool)
      requires Valid()
      modifies this, table, all
      ensures Valid() && added == (key !in old(M))
      ensures M == old(M)[key := val]
      ensures all >= old(all) && fresh(all - old(all))
      ensures table == old(table) || fresh(table)
    {
      hide Means, Holds, Slot, IsTableSize;
      added := Add(key, val);
      if added {
        return;
      }
      var entry := Find(key);
      SetVal(entry, val);
    }

    /** The value update at the end of dictReplace. */
    method SetVal(entry: Entry<V>, val: V)
      requires Valid() && entry in all
      modifies entry`val, this`M
      ensures Valid() && M == old(M)[entry.key := val]
    {
      hide Means, Holds;
      entry.val := val;
      HoldsKept(table, chains, all);
      MeansUpdated(all, M, entry);
      M := M[entry.key := val];
    }

    /** The search loop of dictDelete: the entry of the key in this slot and the entry before it. */
    method FindBefore(slot: nat, key: bytes) returns (prevde: Entry?<V>, de: Entry?<V>, ghost a: nat)
      requires Valid() && slot < size
      ensures de == null ==> forall e :: e in chains[slot] ==> e.key != key
      ensures de != null ==> a < |chains[slot]| && de == chains[slot][a] && de.key == key
      ensures de != null ==> prevde == if a == 0 then null else chains[slot][a - 1]
    {
      hide Means, Holds, Slot, IsTableSize, NoDup, HashTable.Valid;
      TableFacts(this);
      de, prevde, a := table[slot], null, 0;
      ghost var nodes := chains[slot];
      LinkedTail(de, nodes);
      assert nodes[0..] == nodes;
      while de != null
        invariant a <= |nodes| && Linked(de, nodes[a..])
        invariant prevde == if a == 0 then null else nodes[a - 1]
        invariant forall b :: 0 <= b < a ==> nodes[b].key != key
        decreases |nodes| - a
      {
        LinkedTail(de, nodes[a..]);
        if de.key == key {
          return;
        }
        assert nodes[a..][1..] == nodes[a + 1..];
        prevde := de;
        de := de.next;
        a := a + 1;
      }
      LinkedTail(de, nodes[a..]);
    }

    /** dictDelete. The entry gone from the chain of slot h was its a-th. */
    method Delete(key: bytes) returns (ok: bool, ghost h: nat, ghost a: nat)
      requires Valid()
      modifies this, table, all`next
      ensures Valid() && ok == (key in old(M)) && table == old(table) && size == old(size)
      ensures M == old(M) - {key}
      ensures !ok ==> all == old(all) && chains == old(chains)
      ensures ok ==>
                && h < |old(chains)| && a < |old(chains[h])| && old(chains[h][a].key) == key
                && all == old(all) - {old(chains[h][a])}
                && chains == old(chains)[h := Without(old(chains[h]), a)]
    {
      hide Means, Holds, Slot, IsTableSize, NoDup, HashTable.Valid;
      h, a := 0, 0;
      TableFacts(this);
      if size == 0 {
        return false, 0, 0;
      }
      var slot := MaskedSlot(key, sizemask, size);
      var prevde, de;
      prevde, de, a := FindBefore(slot, key);
      h := slot;
      if de == null {
        KeyMissing(table, chains, all, M, key);
        return false, h, a;
      }
      TakeOut(slot, prevde, de, a);
      ok := true;
    }

    /** The entry that was found leaves its chain and the table. */
    method TakeOut(slot: nat, prevde: Entry?<V>, de: Entry<V>, ghost a: nat)
      requires Valid() && slot < |chains| && a < |chains[slot]| && de == chains[slot][a]
      requires prevde == if a == 0 then null else chains[slot][a - 1]
      modifies this, table, all`next
      ensures Valid() && table == old(table) && size == old(size) && old(de.key in M)
      ensures M == old(M) - {old(de.key)} && all == old(all) - {de}
      ensures chains == old(chains)[slot := Without(old(chains[slot]), a)]
    {
      hide Means, Holds, Slot, IsTableSize, NoDup, Linked, Nodes, Without, HashTable.Valid;
      TableFacts(this);
      ghost var rest, left := all - {de}, M - {de.key};
      ghost var chains' := chains[slot := Without(chains[slot], a)];
      ChainInAll(table, chains, all, slot, a);
      MeansRemoved(all, M, de);
      Unlink(table, chains, all, slot, prevde, de, a);
      MeansKept(rest, left);
      assert |rest| == |all| - 1 && |chains'| == |chains|;
      assert Holds(table, chains', rest) && Means(rest, left);
      chains, all, M := chains', rest, left;
      used := used - 1;
      assert Holds(table, chains', rest);
      assert Means(rest, left);
      assert size == |chains|;
      assert used == |all| <= size;
      IsValid(this);
    }
  }

  lemma ChainInAll<V>(table: array<Entry?<V>>, chains: seq<seq<Entry<V>>>, all: set<Entry<V>>, i: nat, a: nat)
    requires Holds(table, chains, all) && i < |chains| && a < |chains[i]|
    ensures chains[i][a] in all && |chains| == table.Length
  {
    assert chains[i][a] in Nodes(chains[i]);
  }

  lemma TableFacts<V>(ht: HashTable<V>)
    requires ht.Valid()
    ensures Holds(ht.table, ht.chains, ht.all) && Means(ht.all, ht.M)
    ensures ht.size == |ht.chains| == ht.table.Length && ht.used == |ht.all| <= ht.size
    ensures forall i :: 0 <= i < |ht.chains| ==> Linked(ht.table[i], ht.chains[i])
    ensures ht.size == 0 ==> ht.M == map[]
    ensures ht.size > 0 ==> IsTableSize(ht.size) && IsTableSize(ht.size * 2) && ht.sizemask == ht.size - 1
  {
    hide NoDup, Slot, Linked, Nodes;
    NoEntries(ht.all, ht.M);
  }

  lemma IsValid<V>(ht: HashTable<V>)
    requires ht.size == |ht.chains| && (ht.size == 0 || (IsTableSize(ht.size) && ht.sizemask == ht.size - 1))
    requires ht.used == |ht.all| <= ht.size
    requires Holds(ht.table, ht.chains, ht.all) && Means(ht.all, ht.M)
    ensures ht.Valid()
  {
  }

  lemma MeansFound<V>(all: set<Entry<V>>, m: map<bytes, V>, e: Entry<V>)
    requires Means(all, m) && e in all
    ensures e.key in m && m[e.key] == e.val
  {
  }

  lemma MeansAdded<V>(all: set<Entry<V>>, m: map<bytes, V>, e: Entry<V>)
    requires Means(all, m) && e.key !in m
    ensures Means(all + {e}, m[e.key := e.val])
  {
  }

  lemma NoEntries<V>(all: set<Entry<V>>, m: map<bytes, V>)
    requires Means(all, m)
    ensures all == {} ==> m == map[]
    ensures |all| == 0 ==> all == {}
  {
  }

  twostate lemma HoldsKept<V>(table: array<Entry?<V>>, new chains: seq<seq<Entry<V>>>, new all: set<Entry<V>>)
    requires old(allocated(chains)) && old(allocated(all))
    requires old(Holds(table, chains, all)) && forall i :: 0 <= i < table.Length ==> table[i] == old(table[i])
    requires forall e :: e in all ==> e.key == old(e.key) && e.next == old(e.next)
    ensures Holds(table, chains, all)
  {
    hide NoDup, Slot;
    forall i | 0 <= i < |chains| ensures Linked(table[i], chains[i]) {
      assert old(Linked(table[i], chains[i])) && Nodes(chains[i]) <= all;
      forall a | 0 <= a < |chains[i]| ensures chains[i][a].next == NodeAt(chains[i], a + 1) {
        assert chains[i][a] in Nodes(chains[i]);
      }
    }
  }

  twostate lemma MeansUpdated<V>(all: set<Entry<V>>, new m: map<bytes, V>, new e: Entry<V>)
    requires old(allocated(m)) && old(allocated(e))
    requires old(Means(all, m)) && e in all
    requires forall x :: x in all ==> x.key == old(x.key) && (x != e ==> x.val == old(x.val))
    ensures Means(all, m[e.key := e.val])
  {
    var m' := m[e.key := e.val];
    forall k | k in m' ensures exists x :: x in all && x.key == k {
      if k != e.key {
        var x :| x in all && old(x.key) == k;
        assert x.key == k;
      }
    }
  }

  lemma MeansRemoved<V>(all: set<Entry<V>>, m: map<bytes, V>, e: Entry<V>)
    requires Means(all, m) && e in all
    ensures Means(all - {e}, m - {e.key}) && e.key in m
  {
    var m' := m - {e.key};
    forall k | k in m' ensures exists x :: x in all - {e} && x.key == k {
      var x :| x in all && x.key == k;
      assert x in all - {e};
    }
  }

  lemma KeyMissing<V>(table: array<Entry?<V>>, chains: seq<seq<Entry<V>>>, all: set<Entry<V>>, m: map<bytes, V>,
                       key: bytes)
    requires Holds(table, chains, all) && Means(all, m) && |chains| > 0
    requires forall e :: e in chains[Slot(key, |chains|)] ==> e.key != key
    ensures key !in m && m - {key} == m
  {
    hide NoDup, Linked, Slot;
    forall e | e in all ensures e.key != key {
      assert e in chains[Slot(e.key, |chains|)];
    }
    assert key !in m;
  }

  function Without<T>(s: seq<T>, a: nat): seq<T>
    requires a < |s|
  {
    s[..a] + s[a + 1..]
  }

  lemma WithoutNodes<V>(nodes: seq<Entry<V>>, a: nat)
    requires NoDup(nodes) && a < |nodes|
    ensures NoDup(Without(nodes, a)) && nodes[a] !in Without(nodes, a)
    ensures forall e :: e in Without(nodes, a) <==> e in nodes && e != nodes[a]
  {
    var rest := Without(nodes, a);
    assert forall b :: 0 <= b < |rest| ==> rest[b] == nodes[if b < a then b else b + 1];
    assert forall b :: 0 <= b < |nodes| && b != a ==> nodes[b] == rest[if b < a then b else b - 1];
  }

  /** The list after its a-th node has been bypassed. */
  twostate lemma CutLinked<V>(p: Entry?<V>, new p': Entry?<V>, new nodes: seq<Entry<V>>, new a: nat)
    requires old(allocated(p')) && old(allocated(nodes))
    requires old(Linked(p, nodes)) && a < |nodes|
    requires p' == if a == 0 then old(nodes[a].next) else p
    requires forall b :: 0 <= b < |nodes| ==> nodes[b].next == old(if b + 1 == a then nodes[a].next else nodes[b].next)
    ensures Linked(p', Without(nodes, a))
  {
    var rest := Without(nodes, a);
    assert old(nodes[a].next) == NodeAt(nodes, a + 1) == NodeAt(rest, a);
    forall b | 0 <= b < |rest| ensures rest[b].next == NodeAt(rest, b + 1) {
      var c := if b < a then b else b + 1;
      assert rest[b] == nodes[c] && old(nodes[c].next) == NodeAt(nodes, c + 1);
    }
  }

  twostate lemma LinkedKept<V>(p: Entry?<V>, new nodes: seq<Entry<V>>)
    requires old(allocated(nodes))
    requires old(Linked(p, nodes)) && forall e :: e in nodes ==> e.next == old(e.next)
    ensures Linked(p, nodes)
  {
    forall a | 0 <= a < |nodes| ensures nodes[a].next == NodeAt(nodes, a + 1) {
      assert nodes[a] in nodes;
    }
  }

  /** Taking an entry out of its chain: the unlinking step of dictDelete. */
  method Unlink<V>(table: array<Entry?<V>>, ghost chains: seq<seq<Entry<V>>>, ghost all: set<Entry<V>>,
                   h: nat, prevde: Entry?<V>, de: Entry<V>, ghost a: nat)
    requires Holds(table, chains, all) && h < |chains| == table.Length && a < |chains[h]| && de == chains[h][a]
    requires prevde == if a == 0 then null else chains[h][a - 1]
    modifies table, all`next
    ensures Holds(table, chains[h := Without(chains[h], a)], all - {de})
  {
    hide NoDup, Slot, Linked;
    ChainInAll(table, chains, all, h, a);
    if a > 0 {
      ChainInAll(table, chains, all, h, a - 1);
    }
    if prevde != null {
      prevde.next := de.next;
    } else {
      LinkedTail(table[h], chains[h]);
      table[h] := de.next;
    }
    Unlinked(table, chains, all, h, prevde, a);
  }

  twostate lemma Unlinked<V>(table: array<Entry?<V>>, new chains: seq<seq<Entry<V>>>, new all: set<Entry<V>>,
                             new h: nat, new prevde: Entry?<V>, new a: nat)
    requires old(allocated(chains)) && old(allocated(all)) && old(allocated(prevde))
    requires old(Holds(table, chains, all)) && h < |chains| == table.Length && a < |chains[h]|
    requires prevde == if a == 0 then null else chains[h][a - 1]
    requires forall i :: 0 <= i < table.Length ==>
               table[i] == old(if i == h && a == 0 then chains[h][a].next else table[i])
    requires forall e :: e in all ==>
               e.key == old(e.key) && e.next == old(if e == prevde then chains[h][a].next else e.next)
    ensures Holds(table, chains[h := Without(chains[h], a)], all - {chains[h][a]})
  {
    hide NoDup, Slot, Linked;
    var de, nodes := chains[h][a], chains[h];
    var chains' := chains[h := Without(nodes, a)];
    WithoutNodes(nodes, a);
    forall i | 0 <= i < |chains'|
      ensures Nodes(chains'[i]) <= all - {de} && NoDup(chains'[i]) && Linked(table[i], chains'[i])
    {
      assert Nodes(chains[i]) <= all;
      if i == h {
        PrevOnly(nodes, a, prevde);
        CutLinked(old(table[h]), table[h], nodes, a);
      } else {
        assert de in chains[h] && Slot(old(de.key), |chains|) == h;
        assert prevde != null ==> prevde in chains[h] && Slot(old(prevde.key), |chains|) == h;
        LinkedKept(table[i], chains[i]);
      }
    }
  }

  lemma PrevOnly<V>(nodes: seq<Entry<V>>, a: nat, prevde: Entry?<V>)
    requires NoDup(nodes) && a < |nodes| && prevde == if a == 0 then null else nodes[a - 1]
    ensures forall b :: 0 <= b < |nodes| ==> (nodes[b] == prevde <==> b + 1 == a)
  {
  }

  /** The chains from slot i on still hold the entries that are left. */
  ghost predicate ToMove<V>(table: array<Entry?<V>>, chains: seq<seq<Entry<V>>>, left: set<Entry<V>>, i: nat)
    reads table, left
  {
    && table.Length == |chains|
    && (forall j :: i <= j < |chains| ==> Nodes(chains[j]) <= left && NoDup(chains[j]) && Linked(table[j], chains[j]))
    && (forall j, e :: i <= j < |chains| && e in chains[j] ==> Slot(e.key, |chains|) == j)
    && (forall e :: e in left ==> |chains| > 0 && i <= Slot(e.key, |chains|) && e in chains[Slot(e.key, |chains|)])
  }

  lemma StartMoving<V>(table: array<Entry?<V>>, chains: seq<seq<Entry<V>>>, all: set<Entry<V>>)
    requires Holds(table, chains, all)
    ensures ToMove(table, chains, all, 0)
  {
    hide NoDup, Linked, Slot;
  }

  lemma NextChain<V>(table: array<Entry?<V>>, chains: seq<seq<Entry<V>>>, left: set<Entry<V>>, i: nat)
    requires ToMove(table, chains, left, i) && i < |chains|
    ensures Nodes(chains[i]) <= left && NoDup(chains[i]) && Linked(table[i], chains[i])
    ensures |Nodes(chains[i])| == |chains[i]|
    ensures |left - Nodes(chains[i])| == |left| - |chains[i]|
  {
    NodesSize(chains[i]);
  }

  twostate lemma MovedOn<V>(table: array<Entry?<V>>, new chains: seq<seq<Entry<V>>>, new left: set<Entry<V>>,
                            new i: nat)
    requires old(allocated(chains)) && old(allocated(left))
    requires old(ToMove(table, chains, left, i)) && i < |chains|
    requires forall j :: 0 <= j < table.Length ==> table[j] == old(table[j])
    requires forall e :: e in left - Nodes(chains[i]) ==> e.key == old(e.key) && e.next == old(e.next)
    ensures ToMove(table, chains, left - Nodes(chains[i]), i + 1)
  {
    hide NoDup, Slot;
    var left' := left - Nodes(chains[i]);
    forall j | i + 1 <= j < |chains| ensures Nodes(chains[j]) <= left' && Linked(table[j], chains[j]) {
      forall e | e in chains[j] ensures e in left' {
        assert e in Nodes(chains[j]);
      }
      assert old(Linked(table[j], chains[j]));
      forall a | 0 <= a < |chains[j]| ensures chains[j][a].next == NodeAt(chains[j], a + 1) {
        assert chains[j][a] in left';
      }
    }
  }

  lemma SkippedOn<V>(table: array<Entry?<V>>, chains: seq<seq<Entry<V>>>, left: set<Entry<V>>, i: nat)
    requires ToMove(table, chains, left, i) && i < |chains| && table[i] == null
    ensures ToMove(table, chains, left, i + 1)
  {
    hide NoDup, Slot;
    LinkedTail(table[i], chains[i]);
  }

  lemma NothingLeft<V>(table: array<Entry?<V>>, chains: seq<seq<Entry<V>>>, left: set<Entry<V>>, i: nat)
    requires ToMove(table, chains, left, i) && (i >= |chains| || |left| == 0)
    ensures left == {}
  {
  }

  twostate lemma MeansKept<V>(all: set<Entry<V>>, new m: map<bytes, V>)
    requires old(allocated(m))
    requires old(Means(all, m)) && forall e :: e in all ==> e.key == old(e.key) && e.val == old(e.val)
    ensures Means(all, m)
  {
    forall k | k in m ensures exists e :: e in all && e.key == k {
      var e :| e in all && old(e.key) == k;
      assert e.key == k;
    }
  }

  lemma EmptyTable<V>(n: array<Entry?<V>>) returns (chains: seq<seq<Entry<V>>>)
    requires forall i :: 0 <= i < n.Length ==> n[i] == null
    ensures Holds(n, chains, {})
  {
    chains := seq(n.Length, _ => []);
  }

  lemma NodesTail<V>(nodes: seq<Entry<V>>)
    requires nodes != [] && NoDup(nodes)
    ensures Nodes(nodes) == {nodes[0]} + Nodes(nodes[1..])
    ensures nodes[0] !in Nodes(nodes[1..]) && nodes[0] !in nodes[1..] && NoDup(nodes[1..])
  {
    assert nodes == [nodes[0]] + nodes[1..];
  }

  lemma NoNodes<V>(nodes: seq<Entry<V>>)
    requires nodes == []
    ensures Nodes(nodes) == {}
  {
  }

  lemma SlotsFit<V>(table: array<Entry?<V>>, chains: seq<seq<Entry<V>>>, all: set<Entry<V>>)
    requires Holds(table, chains, all)
    ensures |chains| == table.Length
  {
  }
}
