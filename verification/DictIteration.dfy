/** The table iterator (dict.c): every entry once, then NULL, even if each entry is deleted once it is returned. */
module DictIteration {
  import opened Dict

  /** The entries of the chains from slot i on, in the order of the slots. */
  ghost function From<V>(chains: seq<seq<Entry<V>>>, i: nat): seq<Entry<V>>
    decreases |chains| - i
  {
    if i >= |chains| then [] else chains[i] + From(chains, i + 1)
  }

  lemma {:induction false} FromUnaffected<V>(chains: seq<seq<Entry<V>>>, h: nat, nodes: seq<Entry<V>>, i: nat)
    requires h < |chains| && h < i
    ensures From(chains[h := nodes], i) == From(chains, i)
    decreases |chains| - i
  {
    if i < |chains| {
      FromUnaffected(chains, h, nodes, i + 1);
    }
  }

  /** The chains from slot i on hold each entry of those slots, once. */
  lemma {:induction false} FromNodes<V>(table: array<Entry?<V>>, chains: seq<seq<Entry<V>>>, all: set<Entry<V>>, i: nat)
    requires Holds(table, chains, all) && i <= |chains|
    ensures NoDup(From(chains, i))
    ensures forall e :: e in From(chains, i) <==> e in all && Slot(e.key, |chains|) >= i
    decreases |chains| - i
  {
    hide Linked, Slot;
    if i < |chains| {
      FromNodes(table, chains, all, i + 1);
      var here, later := chains[i], From(chains, i + 1);
      assert Nodes(here) <= all;
      assert forall e :: e in here ==> e in Nodes(here);
      NoDupAppend(here, later);
    }
  }

  lemma NoDupAppend<V>(a: seq<Entry<V>>, b: seq<Entry<V>>)
    requires NoDup(a) && NoDup(b) && forall e :: e in a ==> e !in b
    ensures NoDup(a + b)
  {
    var c := a + b;
    forall i, j | 0 <= i < j < |c| ensures c[i] != c[j] {
      if i < |a| <= j {
        assert c[i] in a && c[j] in b;
      }
    }
  }

  ghost predicate Suffix<V>(rest: seq<Entry<V>>, nodes: seq<Entry<V>>) {
    |rest| <= |nodes| && rest == nodes[|nodes| - |rest|..]
  }

  class DictIterator<V> {
    const ht: HashTable<V>
    var index: int
    var entry: Entry?<V>
    var nextEntry: Entry?<V>
    ghost var rest: seq<Entry<V>>  // what follows the returned entry in its chain

    /** The entry returned last may have been deleted; those that follow it are still in their chain. */
    ghost predicate Valid()
      reads this, ht
      ensures Valid() ==> -1 <= index
    {
      && -1 <= index
      && (if entry == null then rest == []
          else index < |ht.chains| && 0 <= index && Suffix(rest, ht.chains[index]) && nextEntry == NodeAt(rest, 0))
    }

    /** The entries that are still to come. */
    ghost function Todo(): seq<Entry<V>>
      requires -1 <= index
      reads this, ht
    {
      rest + From(ht.chains, index + 1)
    }

    /** The entry returned last is still in its chain, in front of the rest. */
    ghost predicate AtEntry()
      reads this, ht
    {
      && entry != null && 0 <= index < |ht.chains|
      && |rest| < |ht.chains[index]| && entry == ht.chains[index][|ht.chains[index]| - |rest| - 1]
    }

    /** dictGetIterator. */
    constructor (ht: HashTable<V>)
      requires ht.Valid()
      ensures this.ht == ht && Valid() && Todo() == From(ht.chains, 0) && entry == null
    {
      this.ht := ht;
      index, entry, nextEntry := -1, null, null;
      rest := [];
    }

    /** The head of the loop in dictNext: the next entry of the chain, or the first one of the next slot. */
    method Candidate() returns (exhausted: bool)
      requires ht.Valid() && Valid()
      modifies this
      ensures -1 <= index && Todo() == old(Todo())
      ensures exhausted ==> entry == null && rest == [] && Todo() == []
      ensures !exhausted ==>
                && 0 <= index < |ht.chains| && Suffix(rest, ht.chains[index])
                && entry == NodeAt(rest, 0)
                && (if old(entry) == null then index == old(index) + 1 else index == old(index))
    {
      hide Means, NoDup, Slot, From, Holds, HashTable.Valid;
      exhausted := false;
      FromStep(ht.chains, index + 1);
      if entry == null {
        index := index + 1;
        TableFacts(ht);
        if index >= ht.size {
          FromStep(ht.chains, index + 1);
          return true;
        }
        ChainFacts(ht, index, |ht.chains[index]|);
        entry := ht.table[index];
        rest := ht.chains[index];
      } else {
        entry := nextEntry;
      }
    }

    /** dictNext. */
    method Next() returns (r: Entry?<V>)
      requires ht.Valid() && Valid()
      modifies this
      ensures Valid() && entry == r
      ensures r == null <==> old(Todo()) == []
      ensures r == null ==> Todo() == []
      ensures r != null ==> r == old(Todo())[0] && Todo() == old(Todo())[1..] && AtEntry()
    {
      hide Means, NoDup, Slot, From, Holds, HashTable.Valid, Suffix;
      while true
        invariant Valid() && Todo() == old(Todo())
        decreases if index < |ht.chains| then |ht.chains| - index else 0, if entry == null then 0 else 1
      {
        var exhausted := Candidate();
        if exhausted {
          return null;
        }
        if entry != null {
          SuffixTail(rest, ht.chains[index]);
          ChainFacts(ht, index, |rest|);
          TailOfBoth(rest, From(ht.chains, index + 1));
          nextEntry := entry.next;
          rest := rest[1..];
          return entry;
        }
      }
    }
  }

  lemma TailOfBoth<T>(a: seq<T>, b: seq<T>)
    requires a != []
    ensures (a + b)[0] == a[0] && (a + b)[1..] == a[1..] + b && a + b != []
  {
  }

  lemma SuffixTail<V>(rest: seq<Entry<V>>, nodes: seq<Entry<V>>)
    requires Suffix(rest, nodes) && rest != []
    ensures Suffix(rest[1..], nodes) && |rest| <= |nodes| && nodes[|nodes| - |rest|] == rest[0]
    ensures nodes[|nodes| - |rest| + 1..] == rest[1..]
  {
  }

  /** The list structure of a chain, seen from its last n entries. */
  lemma ChainFacts<V>(ht: HashTable<V>, i: nat, n: nat)
    requires ht.Valid() && i < |ht.chains| && n <= |ht.chains[i]|
    ensures ht.table.Length == |ht.chains| && ht.table[i] == NodeAt(ht.chains[i], 0)
    ensures var nodes := ht.chains[i];
            n > 0 ==> nodes[|nodes| - n].next == NodeAt(nodes[|nodes| - n + 1..], 0)
  {
    hide Means, NoDup, Slot;
    assert Linked(ht.table[i], ht.chains[i]);
    var nodes := ht.chains[i];
    if n > 0 {
      assert nodes[|nodes| - n].next == NodeAt(nodes, |nodes| - n + 1);
    }
  }

  lemma FromStep<V>(chains: seq<seq<Entry<V>>>, i: nat)
    ensures i < |chains| ==> From(chains, i) == chains[i] + From(chains, i + 1)
    ensures i >= |chains| ==> From(chains, i) == []
  {
  }

  /** The entries to visit are those visited, the one just returned, and those still to come. */
  ghost predicate Splits<V>(todo: seq<Entry<V>>, visited: seq<Entry<V>>, e: Entry?<V>, rest: seq<Entry<V>>) {
    todo == visited + (if e == null then [] else [e]) + rest && (e == null ==> rest == [])
  }

  lemma SplitsNext<V>(todo: seq<Entry<V>>, visited: seq<Entry<V>>, e: Entry<V>, rest: seq<Entry<V>>,
                      e': Entry?<V>, rest': seq<Entry<V>>)
    requires Splits(todo, visited, e, rest)
    requires e' == null ==> rest == [] && rest' == []
    requires e' != null ==> rest != [] && e' == rest[0] && rest' == rest[1..]
    ensures Splits(todo, visited + [e], e', rest')
  {
  }

  lemma SplitsFirst<V>(todo: seq<Entry<V>>, e: Entry?<V>, rest: seq<Entry<V>>)
    requires e == null ==> todo == [] && rest == []
    requires e != null ==> todo != [] && e == todo[0] && rest == todo[1..]
    ensures Splits(todo, [], e, rest)
  {
  }

  lemma SplitsLast<V>(todo: seq<Entry<V>>, visited: seq<Entry<V>>, rest: seq<Entry<V>>)
    requires Splits(todo, visited, null, rest)
    ensures visited == todo
  {
  }

  /** A caller that only looks: all entries, each once. */
  method VisitAll<V>(ht: HashTable<V>) returns (visited: seq<Entry<V>>)
    requires ht.Valid()
    ensures NoDup(visited) && Nodes(visited) == ht.all && |visited| == ht.used
  {
    hide Means, NoDup, Slot, From, Linked, Nodes, Holds, HashTable.Valid, Splits;
    hide DictIterator.Valid, DictIterator.Todo, DictIterator.AtEntry;
    WholeTable(ht);
    var it := new DictIterator(ht);
    ghost var todo := it.Todo();
    visited := [];
    var e := it.Next();
    SplitsFirst(todo, e, it.Todo());
    while e != null
      invariant it.ht == ht && it.Valid() && ht.Valid() && it.entry == e
      invariant Splits(todo, visited, e, it.Todo())
      decreases |it.Todo()|, if e == null then 0 else 1
    {
      ghost var rest := it.Todo();
      var next := it.Next();
      SplitsNext(todo, visited, e, rest, next, it.Todo());
      visited := visited + [e];
      e := next;
    }
    SplitsLast(todo, visited, it.Todo());
  }

  lemma WholeTable<V>(ht: HashTable<V>)
    requires ht.Valid()
    ensures var todo := From(ht.chains, 0);
            NoDup(todo) && Nodes(todo) == ht.all && |todo| == ht.used
  {
    hide Means, NoDup, Slot, Linked, Holds;
    FromNodes(ht.table, ht.chains, ht.all, 0);
    NodesSize(From(ht.chains, 0));
    assert Nodes(From(ht.chains, 0)) == ht.all;
  }

  /** Deleting the entry that has just been returned does not disturb the iteration. */
  twostate lemma SurvivesDelete<V>(it: DictIterator<V>, new chains: seq<seq<Entry<V>>>, new h: nat, new a: nat,
                                   new e: Entry<V>)
    requires old(allocated(chains)) && old(allocated(e))
    requires old(it.ht.Valid()) && old(it.Valid() && it.AtEntry())
    requires it.index == old(it.index) && it.entry == old(it.entry)
    requires it.rest == old(it.rest) && it.nextEntry == old(it.nextEntry)
    requires chains == old(it.ht.chains) && h < |chains| && a < |chains[h]| && chains[h][a] == e
    requires old(e.key) == old(it.entry.key)
    requires it.ht.chains == chains[h := Without(chains[h], a)]
    ensures it.Valid() && it.Todo() == old(it.Todo()) && e == it.entry
  {
    hide Linked;
    var nodes := chains[it.index];
    var p := |nodes| - |it.rest| - 1;
    assert old(Nodes(nodes) <= it.ht.all && Nodes(chains[h]) <= it.ht.all);
    assert nodes[p] in Nodes(nodes) && chains[h][a] in Nodes(chains[h]);
    assert chains[h][a] == it.entry;
    assert h == it.index by {
      assert chains[h][a] in chains[h] && nodes[p] in nodes;
    }
    assert a == p;
    var nodes' := Without(nodes, a);
    assert nodes'[|nodes'| - |it.rest|..] == it.rest;
    FromUnaffected(chains, h, nodes', it.index + 1);
  }

  /** The caller deletes the entry that has just been returned; what is still to come is not changed. */
  method DeleteReturned<V>(it: DictIterator<V>)
    requires it.ht.Valid() && it.Valid() && it.AtEntry()
    modifies it.ht, it.ht.table, it.ht.all`next
    ensures it.ht.Valid() && it.ht.table == old(it.ht.table) && it.Valid() && it.Todo() == old(it.Todo())
    ensures it.ht.all == old(it.ht.all) - {it.entry}
  {
    hide Means, NoDup, Slot, From, Linked, Nodes, Holds, HashTable.Valid;
    EntryInMap(it);
    ghost var chains := it.ht.chains;
    var ok, h, a := it.ht.Delete(it.entry.key);
    SurvivesDelete(it, chains, h, a, chains[h][a]);
  }

  /** A caller that deletes each entry just after it was returned: all entries, each once, and an empty table. */
  method DeleteAll<V>(ht: HashTable<V>) returns (visited: seq<Entry<V>>)
    requires ht.Valid()
    modifies ht, ht.table, ht.all`next
    ensures NoDup(visited) && Nodes(visited) == old(ht.all) && |visited| == old(ht.used)
    ensures ht.Valid() && ht.M == map[]
  {
    hide Means, NoDup, Slot, From, Linked, Nodes, Holds, HashTable.Valid, Splits;
    hide DictIterator.Valid, DictIterator.Todo, DictIterator.AtEntry;
    WholeTable(ht);
    var it := new DictIterator(ht);
    ghost var todo := it.Todo();
    visited := [];
    NoNodes(visited);
    var e := it.Next();
    SplitsFirst(todo, e, it.Todo());
    while e != null
      invariant it.ht == ht && fresh(it) && it.Valid() && ht.Valid() && ht.table == old(ht.table)
      invariant it.entry == e && (e != null ==> it.AtEntry())
      invariant Splits(todo, visited, e, it.Todo())
      invariant ht.all == old(ht.all) - Nodes(visited)
      decreases |it.Todo()|, if e == null then 0 else 1
    {
      DeleteReturned(it);
      ghost var rest := it.Todo();
      NodesSnoc(visited, e);
      var next := it.Next();
      SplitsNext(todo, visited, e, rest, next, it.Todo());
      visited := visited + [e];
      e := next;
    }
    SplitsLast(todo, visited, it.Todo());
    EmptyMap(ht);
  }

  lemma NodesSnoc<V>(nodes: seq<Entry<V>>, e: Entry<V>)
    ensures Nodes(nodes + [e]) == Nodes(nodes) + {e}
  {
  }

  lemma EntryInMap<V>(it: DictIterator<V>)
    requires it.ht.Valid() && it.AtEntry()
    ensures it.entry in it.ht.all && it.entry.key in it.ht.M
  {
    hide NoDup, Slot, Linked;
    var nodes := it.ht.chains[it.index];
    assert Nodes(nodes) <= it.ht.all && it.entry in Nodes(nodes);
  }

  lemma EmptyMap<V>(ht: HashTable<V>)
    requires ht.Valid() && ht.all == {}
    ensures ht.M == map[]
  {
    hide Holds;
  }
}
