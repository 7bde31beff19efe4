// The table of machista's hash map: buckets of linked entries, relinked in place.
module HashMapTable {
  import opened HashCode
  import opened HashMapOwnership

  // key and hash are written once, when an entry is created.
  class HashMapEntry {
    const key: Key
    const hash: nat
    var value: Pointer
    var next: HashMapEntry?

    constructor (key: Key, hash: nat)
      ensures this.key == key && this.hash == hash && value == NULL && next == null
    {
      this.key, this.hash, this.value, this.next := key, hash, NULL, null;
    }
  }

  // The entry at position i of a bucket, null behind its end.
  ghost function At(chain: seq<HashMapEntry>, i: nat): HashMapEntry? {
    if i < |chain| then chain[i] else null
  }

  // head starts a null-terminated list of distinct entries, which are those of chain.
  ghost predicate Linked(head: HashMapEntry?, chain: seq<HashMapEntry>)
    reads chain`next
  {
    && head == At(chain, 0)
    && (forall i :: 0 <= i < |chain| ==> chain[i].next == At(chain, i + 1))
    && (forall i, j :: 0 <= i < j < |chain| ==> chain[i] != chain[j])
  }

  // Every bucket of the table is linked, its entries come from repr, and each is in the bucket of its hash.
  ghost predicate Chained(table: array<HashMapEntry?>, chains: seq<seq<HashMapEntry>>, repr: set<HashMapEntry>)
    reads table, repr`next
  {
    && |chains| == table.Length > 0
    && (forall i, e :: 0 <= i < |chains| && e in chains[i] ==> e in repr && IndexFor(e.hash, |chains|) == i)
    && (forall i :: 0 <= i < |chains| ==> Linked(table[i], chains[i]))
  }

  ghost predicate Has(chains: seq<seq<HashMapEntry>>, e: HashMapEntry)
    requires |chains| > 0
  {
    e in chains[IndexFor(e.hash, |chains|)]
  }

  // The entries are exactly those of the directory, one per key.
  ghost predicate Filed(chains: seq<seq<HashMapEntry>>, directory: map<Key, HashMapEntry>)
    requires |chains| > 0
  {
    && (forall i, e :: 0 <= i < |chains| && e in chains[i] ==> e.key in directory && directory[e.key] == e)
    && (forall k :: k in directory ==> directory[k].key == k && directory[k].hash == HashOf(k))
    && (forall k :: k in directory ==> Has(chains, directory[k]))
  }

  method PushFront(table: array<HashMapEntry?>, i: nat, e: HashMapEntry,
                   ghost chains: seq<seq<HashMapEntry>>, ghost repr: set<HashMapEntry>)
    requires Chained(table, chains, repr)
    requires i == IndexFor(e.hash, |chains|)
    requires e !in chains[i] && e in repr
    modifies table, e`next
    ensures Chained(table, chains[i := [e] + chains[i]], repr)
  {
    hide IndexFor, Linked;
    assert forall j :: 0 <= j < |chains| && j != i ==> e !in chains[j];
    e.next := table[i];
    table[i] := e;
    LinkedAfterPush(table[i], e, chains[i]);
  }

  lemma LinkedAfterPush(head: HashMapEntry?, e: HashMapEntry, chain: seq<HashMapEntry>)
    requires Linked(e.next, chain) && e !in chain && head == e
    ensures Linked(head, [e] + chain)
  {
  }
  // The bucket loop of a rehash: the entries of one old bucket move, one by one, to the fronts of their new buckets.
  method MoveBucket(head: HashMapEntry?, newTable: array<HashMapEntry?>, ghost chain: seq<HashMapEntry>,
                    ghost chains: seq<seq<HashMapEntry>>, ghost repr: set<HashMapEntry>)
    returns (ghost moved: seq<seq<HashMapEntry>>)
    requires Linked(head, chain) && Chained(newTable, chains, repr)
    requires forall e :: e in chain ==> e in repr && !Has(chains, e)
    modifies newTable, (set e | e in chain)`next
    ensures Chained(newTable, moved, repr) && |moved| == |chains|
    ensures forall e :: e in repr ==> (Has(moved, e) <==> Has(chains, e) || e in chain)
  {
    hide IndexFor, Chained, Linked;
    moved := chains;
    var e := head;
    ghost var m := 0;
    ChainedFacts(newTable, chains, repr);
    EntriesDiffer(head, chain);
    assert chain[0..] == chain;
    while e != null
      invariant m <= |chain| && Linked(e, chain[m..])
      invariant Chained(newTable, moved, repr) && |moved| == |chains|
      invariant forall x :: x in repr ==> (Has(moved, x) <==> Has(chains, x) || x in chain[..m])
      decreases |chain| - m
    {
      NextLinked(e, chain[m..]);
      assert e == chain[m] && e !in chain[..m] && e !in chain[m + 1..];
      var index := IndexFor(e.hash, newTable.Length);
      var next := e.next;
      assert chain[m..][1..] == chain[m + 1..];
      PushFront(newTable, index, e, moved, repr);
      ChainedFacts(newTable, moved[index := [e] + moved[index]], repr);
      ghost var before := moved;
      moved := moved[index := [e] + moved[index]];
      HasAfterPush(before, index, e);
      assert chain[..m + 1] == chain[..m] + [e];
      e := next;
      m := m + 1;
    }
    AllVisited(chain[m..]);
    assert chain[..m] == chain;
  }

  lemma EntriesDiffer(head: HashMapEntry?, chain: seq<HashMapEntry>)
    requires Linked(head, chain)
    ensures forall i, j :: 0 <= i < j < |chain| ==> chain[i] != chain[j]
  {
  }

  lemma AllVisited(chain: seq<HashMapEntry>)
    requires Linked(null, chain)
    ensures chain == []
  {
  }

  lemma NextLinked(e: HashMapEntry, chain: seq<HashMapEntry>)
    requires Linked(e, chain)
    ensures |chain| > 0 && Linked(e.next, chain[1..]) && chain[0] == e && e !in chain[1..]
  {
  }

  lemma HasAfterPush(chains: seq<seq<HashMapEntry>>, index: nat, e: HashMapEntry)
    requires |chains| > 0 && index == IndexFor(e.hash, |chains|)
    ensures forall x: HashMapEntry ::
      Has(chains[index := [e] + chains[index]], x) <==> Has(chains, x) || x == e
  {
    hide IndexFor;
  }

  // Rehashing moves every entry into the new table; none is lost, duplicated or left behind.
  method Rehash(table: array<HashMapEntry?>, newTable: array<HashMapEntry?>,
                ghost chains: seq<seq<HashMapEntry>>, ghost repr: set<HashMapEntry>)
    returns (ghost moved: seq<seq<HashMapEntry>>)
    requires Chained(table, chains, repr)
    requires newTable != table && newTable.Length > 0
    requires forall i :: 0 <= i < newTable.Length ==> newTable[i] == null
    modifies newTable, repr`next
    ensures Chained(newTable, moved, repr)
    ensures forall e :: e in repr ==> (Has(moved, e) <==> Has(chains, e))
  {
    hide IndexFor;
    moved := NoEntries(newTable.Length);
    for i := 0 to table.Length
      invariant Chained(newTable, moved, repr)
      invariant forall j :: i <= j < |chains| ==> Linked(table[j], chains[j])
      invariant forall e :: e in repr ==> (Has(moved, e) <==> Has(chains, e) && IndexFor(e.hash, |chains|) < i)
    {
      assert forall e :: e in chains[i] ==> !Has(moved, e);
      moved := MoveBucket(table[i], newTable, chains[i], moved, repr);
    }
  }

  // Unlinks entry j of a bucket: at its head the table is updated, further on the entry before it.
  method Unlink(table: array<HashMapEntry?>, i: nat, prev: HashMapEntry, e: HashMapEntry, next: HashMapEntry?,
                ghost j: nat, ghost chains: seq<seq<HashMapEntry>>, ghost repr: set<HashMapEntry>)
    requires Chained(table, chains, repr)
    requires i < |chains| && j < |chains[i]| && e == chains[i][j] && next == e.next
    requires prev == if j == 0 then e else chains[i][j - 1]
    modifies table, repr`next
    ensures Chained(table, chains[i := Without(chains[i], j)], repr)
  {
    hide IndexFor, Without, Linked;
    ghost var chain := chains[i];
    LinkFacts(table[i], chain, j);
    assert prev in chains[i] && IndexFor(prev.hash, |chains|) == i;
    assert forall k :: 0 <= k < |chains| && k != i ==> prev !in chains[k];
    WithoutAt(chain, j);
    if prev == e {
      table[i] := next;
      LinkedAfterUnlink(table[i], chain, j);
    } else {
      prev.next := next;
      LinkedAfterUnlink(table[i], chain, j);
    }
  }

  lemma LinkFacts(head: HashMapEntry?, chain: seq<HashMapEntry>, j: nat)
    requires Linked(head, chain) && j < |chain|
    ensures head == chain[0]
    ensures forall k :: 0 <= k < |chain| ==> chain[k].next == At(chain, k + 1)
    ensures forall k, l :: 0 <= k < l < |chain| ==> chain[k] != chain[l]
  {
  }

  ghost function Without(chain: seq<HashMapEntry>, j: nat): seq<HashMapEntry>
    requires j < |chain|
  {
    chain[..j] + chain[j + 1..]
  }

  lemma WithoutAt(chain: seq<HashMapEntry>, j: nat)
    requires j < |chain|
    ensures |Without(chain, j)| == |chain| - 1
    ensures forall k :: 0 <= k < |chain| - 1 ==> Without(chain, j)[k] == chain[if k < j then k else k + 1]
    ensures forall e :: e in Without(chain, j) ==> e in chain
  {
  }

  lemma LinkedAfterUnlink(head: HashMapEntry?, chain: seq<HashMapEntry>, j: nat)
    requires j < |chain| && head == At(chain, if j == 0 then 1 else 0)
    requires forall i, k :: 0 <= i < k < |chain| ==> chain[i] != chain[k]
    requires j > 0 ==> chain[j - 1].next == At(chain, j + 1)
    requires forall k :: 0 <= k < |chain| && k != j - 1 && k != j ==> chain[k].next == At(chain, k + 1)
    ensures Linked(head, Without(chain, j))
  {
    hide Without;
    WithoutAt(chain, j);
    var rest := Without(chain, j);
    forall k | 0 <= k < |rest|
      ensures rest[k].next == At(rest, k + 1)
    {
      if k + 1 < |rest| {
        assert rest[k + 1] == chain[if k + 1 < j then k + 1 else k + 2];
      }
    }
  }

  lemma HasAfterUnlink(chains: seq<seq<HashMapEntry>>, i: nat, j: nat, e: HashMapEntry)
    requires i < |chains| && j < |chains[i]| && chains[i][j] == e && i == IndexFor(e.hash, |chains|)
    requires forall k, l :: 0 <= k < l < |chains[i]| ==> chains[i][k] != chains[i][l]
    ensures forall x: HashMapEntry :: Has(chains[i := Without(chains[i], j)], x) <==> Has(chains, x) && x != e
  {
    hide IndexFor, Without;
    var chain, rest := chains[i], Without(chains[i], j);
    WithoutAt(chain, j);
    assert e !in rest;
    forall x | x in chain && x != e
      ensures x in rest
    {
      var k :| 0 <= k < |chain| && chain[k] == x;
      assert rest[if k < j then k else k - 1] == x;
    }
  }

  // Walks a bucket up to the first hit.
  method FindInBucket(head: HashMapEntry?, key: Key, hash: nat, ghost chain: seq<HashMapEntry>)
    returns (e: HashMapEntry?)
    requires Linked(head, chain)
    ensures e != null ==> e in chain && e.hash == hash && e.key == key
    ensures e == null ==> forall x :: x in chain ==> !(x.hash == hash && x.key == key)
  {
    e := head;
    ghost var i := 0;
    while e != null
      invariant i <= |chain| && e == At(chain, i)
      invariant forall k :: 0 <= k < i ==> !(chain[k].hash == hash && chain[k].key == key)
      decreases |chain| - i
    {
      if e.hash == hash && e.key == key {
        return;
      }
      e := e.next;
      i := i + 1;
    }
  }

  lemma FiledUnderTheirKeys(chains: seq<seq<HashMapEntry>>, directory: map<Key, HashMapEntry>)
    requires |chains| > 0 && Filed(chains, directory)
    ensures forall k :: k in directory ==> directory[k].key == k
  {
  }

  lemma FiledAfterPush(chains: seq<seq<HashMapEntry>>, directory: map<Key, HashMapEntry>, i: nat, e: HashMapEntry)
    requires |chains| > 0 && Filed(chains, directory)
    requires e.key !in directory && e.hash == HashOf(e.key) && i == IndexFor(e.hash, |chains|)
    ensures Filed(chains[i := [e] + chains[i]], directory[e.key := e])
  {
    hide IndexFor, HashOf;
    HasAfterPush(chains, i, e);
    var after := chains[i := [e] + chains[i]];
    assert forall j, x :: 0 <= j < |after| && x in after[j] ==> x == e || x in chains[j];
  }

  lemma FiledAfterRehash(chains: seq<seq<HashMapEntry>>, newTable: array<HashMapEntry?>,
                         moved: seq<seq<HashMapEntry>>, directory: map<Key, HashMapEntry>, repr: set<HashMapEntry>)
    requires |chains| > 0 && Filed(chains, directory)
    requires forall i, e :: 0 <= i < |chains| && e in chains[i] ==> e in repr
    requires Chained(newTable, moved, repr)
    requires forall e :: e in repr ==> (Has(moved, e) <==> Has(chains, e))
    ensures Filed(moved, directory)
  {
    hide IndexFor, HashOf, Linked;
    forall i, e | 0 <= i < |moved| && e in moved[i]
      ensures e.key in directory && directory[e.key] == e
    {
      assert Has(moved, e);
      assert Has(chains, e);
    }
  }

  lemma ChainedInLarger(table: array<HashMapEntry?>, chains: seq<seq<HashMapEntry>>, repr: set<HashMapEntry>,
                        e: HashMapEntry)
    requires Chained(table, chains, repr)
    ensures Chained(table, chains, repr + {e})
    ensures e !in repr ==> forall i :: 0 <= i < |chains| ==> e !in chains[i]
  {
    hide IndexFor, Linked;
  }

  lemma ChainedFacts(table: array<HashMapEntry?>, chains: seq<seq<HashMapEntry>>, repr: set<HashMapEntry>)
    requires Chained(table, chains, repr)
    ensures |chains| == table.Length > 0
    ensures forall i, e :: 0 <= i < |chains| && e in chains[i] ==> e in repr
  {
    hide IndexFor, Linked;
  }

  // The walk of a removal, which also keeps the entry before the hit; at the head the two are the same.
  method FindWithPrevious(head: HashMapEntry?, key: Key, hash: nat, ghost chain: seq<HashMapEntry>)
    returns (prev: HashMapEntry?, e: HashMapEntry?, ghost j: nat)
    requires Linked(head, chain)
    ensures e == null ==> forall x :: x in chain ==> !(x.hash == hash && x.key == key)
    ensures e != null ==> e.hash == hash && e.key == key && j < |chain| && e == chain[j]
    ensures e != null ==> prev == if j == 0 then e else chain[j - 1]
  {
    prev := head;
    e := prev;
    j := 0;
    while e != null
      invariant j <= |chain| && e == At(chain, j)
      invariant e != null ==> prev == if j == 0 then e else chain[j - 1]
      invariant forall k :: 0 <= k < j ==> !(chain[k].hash == hash && chain[k].key == key)
      decreases |chain| - j
    {
      var next := e.next;
      if e.hash == hash && e.key == key {
        return;
      }
      prev := e;
      e := next;
      j := j + 1;
    }
  }

  lemma FiledAfterUnlink(chains: seq<seq<HashMapEntry>>, directory: map<Key, HashMapEntry>, i: nat, j: nat,
                         e: HashMapEntry)
    requires |chains| > 0 && Filed(chains, directory)
    requires i < |chains| && j < |chains[i]| && chains[i][j] == e && i == IndexFor(e.hash, |chains|)
    requires forall k, l :: 0 <= k < l < |chains[i]| ==> chains[i][k] != chains[i][l]
    requires forall k, x :: 0 <= k < |chains| && x in chains[k] ==> IndexFor(x.hash, |chains|) == k
    ensures Filed(chains[i := Without(chains[i], j)], directory - {e.key})
  {
    hide IndexFor, HashOf, Without;
    HasAfterUnlink(chains, i, j, e);
    WithoutAt(chains[i], j);
    var after := chains[i := Without(chains[i], j)];
    forall k, x | 0 <= k < |after| && x in after[k]
      ensures x in chains[k] && x != e
    {
      assert x in chains[k];
      assert Has(after, x);
    }
  }

  lemma BucketFacts(table: array<HashMapEntry?>, chains: seq<seq<HashMapEntry>>, repr: set<HashMapEntry>, i: nat)
    requires Chained(table, chains, repr) && i < |chains|
    ensures Linked(table[i], chains[i])
    ensures forall k, l :: 0 <= k < l < |chains[i]| ==> chains[i][k] != chains[i][l]
    ensures forall k, x :: 0 <= k < |chains| && x in chains[k] ==> IndexFor(x.hash, |chains|) == k
  {
    hide IndexFor;
  }

  // What a walk of the bucket of a key's hash decides about the directory.
  lemma FiledFacts(chains: seq<seq<HashMapEntry>>, directory: map<Key, HashMapEntry>, key: Key, hash: nat)
    requires |chains| > 0 && Filed(chains, directory) && hash == HashOf(key)
    ensures forall e :: e in chains[IndexFor(hash, |chains|)] && e.key == key ==>
      key in directory && directory[key] == e
    ensures key in directory ==> directory[key] in chains[IndexFor(hash, |chains|)] && directory[key].hash == hash
    ensures key in directory ==> directory[key].key == key
  {
    hide IndexFor, HashOf;
  }

  lemma LinkedIsDistinct(head: HashMapEntry?, chain: seq<HashMapEntry>)
    requires Linked(head, chain)
    ensures forall i, j :: 0 <= i < j < |chain| ==> chain[i] != chain[j]
  {
  }

  ghost function NoEntries(n: nat): (chains: seq<seq<HashMapEntry>>)
    ensures |chains| == n && forall i :: 0 <= i < n ==> chains[i] == []
  {
    seq(n, _ => [])
  }

  lemma NoEntriesLength(n: nat)
    ensures |NoEntries(n)| == n
  {
  }

  lemma NullTableIsChained(table: array<HashMapEntry?>, repr: set<HashMapEntry>)
    requires table.Length > 0 && forall i :: 0 <= i < table.Length ==> table[i] == null
    ensures Chained(table, NoEntries(table.Length), repr) && Filed(NoEntries(table.Length), map[])
  {
  }
}
