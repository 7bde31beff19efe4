// The hash map of machista: put, get, containsKey, remove and clear over a table that doubles.
module HashMap {
  import opened CTypes
  import opened HashCode
  import opened HashMapOwnership
  import opened HashMapTable

  const INITIAL_CAPACITY: nat := 16
  const MAXIMUM_CAPACITY: nat := 0x8000_0000
  const UINT_MAX: nat := 0xffff_ffff

  class HashMap {
    var table: array<HashMapEntry?>
    var capacity: nat
    var size: nat
    var threshold: nat
    // What is stored, and the logs of the free function and of the out pointers.
    ghost var contents: map<Key, Pointer>
    ghost var freed: seq<Pointer>
    ghost var handed: seq<Pointer>
    ghost var chains: seq<seq<HashMapEntry>>
    ghost var directory: map<Key, HashMapEntry>
    ghost var repr: set<HashMapEntry>
    // Entries dropped by Clear, which does not lower the size.
    ghost var lost: nat

    ghost function Books(): Account
      reads `contents, `freed, `handed
    {
      Account(contents, freed, handed)
    }

    ghost predicate Valid()
      reads this, table, repr
    {
      && Shaped()
      && Stored()
      && Sized()
    }

    ghost predicate Shaped()
      reads `table, `capacity, `chains, `directory, `repr, table, repr`next
    {
      && capacity == table.Length == |chains| > 0
      && Chained(table, chains, repr)
      && Filed(chains, directory)
    }

    ghost predicate Stored()
      reads `contents, `directory, `repr, repr`value
    {
      && contents.Keys == directory.Keys
      && forall k :: k in directory ==> directory[k] in repr && directory[k].value == contents[k]
    }

    // The capacity is a power of two; below the maximum the load stays within three quarters.
    ghost predicate Sized()
      reads `size, `directory, `lost, `capacity, `threshold
    {
      && size == |directory| + lost
      && PowerOfTwo(capacity) && INITIAL_CAPACITY <= capacity <= MAXIMUM_CAPACITY
      && (threshold == capacity * 3 / 4 || (capacity == MAXIMUM_CAPACITY && threshold == UINT_MAX))
      && (capacity < MAXIMUM_CAPACITY ==> size <= threshold)
    }

    // Without a Clear the size is the number of keys.
    lemma SizeCountsKeys()
      requires Valid()
      ensures size == |contents| + lost
      ensures capacity < MAXIMUM_CAPACITY ==> 4 * size <= 3 * capacity
    {
      assert |contents.Keys| == |directory.Keys|;
    }

    // The capacity is a power of two between 16 and 2^31, and the threshold three quarters of it, lifted at the maximum.
    lemma Limits()
      requires Valid()
      ensures PowerOfTwo(capacity) && 16 <= capacity <= 0x8000_0000
      ensures threshold == capacity * 3 / 4 || (capacity == 0x8000_0000 && threshold == 0xffff_ffff)
    {
    }

    constructor ()
      ensures Valid() && fresh(table) && repr == {}
      ensures Books() == EMPTY && size == lost == 0 && capacity == 16
    {
      table := new HashMapEntry?[INITIAL_CAPACITY](_ => null);
      capacity := INITIAL_CAPACITY;
      threshold := INITIAL_CAPACITY * 3 / 4;
      size := 0;
      contents, freed, handed := map[], [], [];
      chains, directory, repr, lost := NoEntries(INITIAL_CAPACITY), map[], {}, 0;
      new;
      assert PowerOfTwo(4);
    }

    // The entry of a key, found by walking the bucket of its hash.
    method Find(key: Key, hash: nat, index: nat) returns (e: HashMapEntry?)
      requires Valid() && hash == HashOf(key) && index == IndexFor(hash, capacity)
      ensures e != null <==> key in contents
      ensures key in contents <==> key in directory
      ensures e != null ==> e in repr && e.key == key && e == directory[key] && e.value == contents[key]
    {
      hide IndexFor, HashOf, Sized;
      e := FindInBucket(table[index], key, hash, chains[index]);
    }

    // NULL stands for a missing key.
    method Get(key: Key) returns (value: Pointer)
      requires Valid()
      ensures value == Lookup(contents, key)
    {
      hide IndexFor, HashOf, Chained, Filed, Sized;
      var hash := DoHash(key);
      var e := Find(key, hash, IndexFor(hash, capacity));
      value := if e != null then e.value else NULL;
    }

    method ContainsKey(key: Key) returns (found: bool)
      requires Valid()
      ensures found <==> key in contents
    {
      hide IndexFor, HashOf, Chained, Filed, Sized;
      var hash := DoHash(key);
      var e := Find(key, hash, IndexFor(hash, capacity));
      found := e != null;
    }

    // Hands the value over when the caller passed an out pointer, frees it otherwise.
    method CopyOrFree(value: Pointer, keep: bool) returns (out: Pointer)
      modifies `freed, `handed
      ensures Books() == Released(old(Books()), value, keep)
      ensures out == if keep then value else NULL
    {
      if keep {
        handed := handed + [value];
        out := value;
      } else {
        freed := freed + [value];
        out := NULL;
      }
    }

    method UpdateValue(e: HashMapEntry, value: Pointer, keep: bool) returns (previous: Pointer)
      modifies `freed, `handed, e`value
      ensures Books() == Released(old(Books()), old(e.value), keep)
      ensures previous == if keep then old(e.value) else NULL
      ensures e.value == value
    {
      previous := CopyOrFree(e.value, keep);
      e.value := value;
    }

    // The entry of a stored key takes the new value.
    method Overwrite(e: HashMapEntry, value: Pointer, keep: bool) returns (previous: Pointer)
      requires Valid() && e.key in directory && directory[e.key] == e
      modifies `contents, `freed, `handed, e`value
      ensures Valid() && Books() == AfterPut(old(Books()), e.key, value, keep)
      ensures previous == if keep then old(contents)[e.key] else NULL
    {
      hide Sized, Chained, Filed;
      FiledUnderTheirKeys(chains, directory);
      previous := UpdateValue(e, value, keep);
      contents := contents[e.key := value];
    }

    // A new entry starts zeroed; setting its value releases NULL.
    method NewEntry(key: Key, hash: nat, value: Pointer, keep: bool) returns (e: HashMapEntry, previous: Pointer)
      modifies `freed, `handed
      ensures fresh(e) && e.key == key && e.hash == hash && e.value == value
      ensures Books() == Released(old(Books()), NULL, keep) && previous == NULL
    {
      e := new HashMapEntry(key, hash);
      previous := UpdateValue(e, value, keep);
    }

    // The new entry goes to the front of its bucket.
    method Insert(e: HashMapEntry, index: nat)
      requires Shaped() && Stored() && e.key !in directory && e !in repr
      requires e.hash == HashOf(e.key) && index == IndexFor(e.hash, capacity)
      modifies `contents, `chains, `directory, `repr, table, e`next
      ensures Shaped() && Stored() && repr == old(repr) + {e}
      ensures contents == old(contents)[e.key := e.value]
      ensures directory == old(directory)[e.key := e]
    {
      hide IndexFor, HashOf, Chained, Filed;
      FiledUnderTheirKeys(chains, directory);
      FiledAfterPush(chains, directory, index, e);
      ChainedInLarger(table, chains, repr, e);
      PushFront(table, index, e, chains, repr + {e});
      contents := contents[e.key := e.value];
      chains := chains[index := [e] + chains[index]];
      directory := directory[e.key := e];
      repr := repr + {e};
    }

    method Double()
      requires Shaped() && Stored()
      modifies `table, `capacity, `threshold, `chains, repr`next
      ensures Shaped() && Stored() && fresh(table)
      ensures capacity == 2 * old(capacity) && threshold == capacity * 3 / 4
    {
      hide Chained, Filed, Has;
      var newCapacity := 2 * capacity;
      var newTable := new HashMapEntry?[newCapacity](_ => null);
      ChainedFacts(table, chains, repr);
      ghost var moved := Rehash(table, newTable, chains, repr);
      FiledAfterRehash(chains, newTable, moved, directory, repr);
      ChainedFacts(newTable, moved, repr);
      chains := moved;
      table, capacity, threshold := newTable, newCapacity, newCapacity * 3 / 4;
    }

    // The table doubles, or at its maximum capacity the threshold is lifted for good.
    method Grow()
      requires Shaped() && Stored()
      requires size == |directory| + lost
      requires PowerOfTwo(capacity) && INITIAL_CAPACITY <= capacity <= MAXIMUM_CAPACITY
      requires capacity < MAXIMUM_CAPACITY ==> size <= capacity * 3 / 4 + 1
      modifies `table, `capacity, `threshold, `chains, repr`next
      ensures Valid() && (table == old(table) || fresh(table))
      ensures capacity == if old(capacity) == 0x8000_0000 then old(capacity) else 2 * old(capacity)
    {
      hide Shaped, Stored;
      if capacity == MAXIMUM_CAPACITY {
        threshold := UINT_MAX;
        return;
      }
      WordIsPowerOfTwo();
      PowerBelow(capacity, UINT_RANGE / 2);
      Double();
    }

    // The second half of Put, for a key that is not stored: the old size decides about growing.
    method PutNew(key: Key, hash: nat, index: nat, value: Pointer, keep: bool) returns (previous: Pointer)
      requires Valid() && key !in directory
      requires hash == HashOf(key) && index == IndexFor(hash, capacity)
      modifies this, table, repr
      ensures Valid() && fresh(repr - old(repr)) && (table == old(table) || fresh(table))
      ensures Books() == Released(old(Books()), NULL, keep).(contents := old(contents)[key := value])
      ensures previous == NULL && lost == old(lost)
      ensures capacity ==
        if old(size) < old(threshold) || old(capacity) == 0x8000_0000 then old(capacity) else 2 * old(capacity)
    {
      hide IndexFor, HashOf, Shaped, Stored, PowerOfTwo, Released;
      var e;
      e, previous := NewEntry(key, hash, value, keep);
      Insert(e, index);
      size := size + 1;
      if size - 1 >= threshold {
        Grow();
      }
    }

    // Inserts a key-value pair; the value it replaces, NULL for a new key, is handed back or freed.
    method Put(key: Key, value: Pointer, keep: bool) returns (previous: Pointer)
      requires Valid()
      modifies this, table, repr
      ensures Valid() && fresh(repr - old(repr)) && (table == old(table) || fresh(table))
      ensures Step(old(Books()), Op.Put(key, value, keep), Books())
      ensures previous == if keep then Lookup(old(contents), key) else NULL
      ensures lost == old(lost)
      ensures capacity ==
        if key in old(contents) || old(size) < old(threshold) || old(capacity) == 0x8000_0000 then old(capacity)
        else 2 * old(capacity)
    {
      hide IndexFor, HashOf, Valid, Released;
      var hash := DoHash(key);
      CapacityIsPositive();
      var index := IndexFor(hash, capacity);
      var e := Find(key, hash, index);
      if e != null {
        previous := Overwrite(e, value, keep);
        return;
      }
      previous := PutNew(key, hash, index, value, keep);
    }

    // Takes the found entry out of its bucket.
    method TakeOut(prev: HashMapEntry, e: HashMapEntry, index: nat, ghost j: nat)
      requires Shaped() && Stored() && e.key in directory && directory[e.key] == e
      requires index < capacity && j < |chains[index]| && e == chains[index][j]
      requires prev == if j == 0 then e else chains[index][j - 1]
      modifies `contents, `chains, `directory, table, repr`next
      ensures Shaped() && Stored()
      ensures contents == old(contents) - {e.key} && directory == old(directory) - {e.key}
      ensures e.value == old(e.value)
    {
      hide IndexFor, HashOf, Chained, Filed, Linked;
      ChainedFacts(table, chains, repr);
      BucketFacts(table, chains, repr, index);
      FiledAfterUnlink(chains, directory, index, j, e);
      Unlink(table, index, prev, e, e.next, j, chains, repr);
      chains := chains[index := Without(chains[index], j)];
      contents := contents - {e.key};
      directory := directory - {e.key};
    }

    method FindToRemove(key: Key, hash: nat, index: nat)
      returns (prev: HashMapEntry?, e: HashMapEntry?, ghost j: nat)
      requires Valid() && hash == HashOf(key) && index == IndexFor(hash, capacity)
      ensures e == null <==> key !in contents
      ensures e != null ==> e.key == key && key in directory && directory[key] == e && e.value == contents[key]
      ensures e != null ==> index < capacity == |chains| && j < |chains[index]| && e == chains[index][j]
      ensures e != null ==> prev == if j == 0 then e else chains[index][j - 1]
    {
      hide IndexFor, HashOf, Chained, Filed, Linked, PowerOfTwo;
      BucketFacts(table, chains, repr, index);
      FiledFacts(chains, directory, key, hash);
      prev, e, j := FindWithPrevious(table[index], key, hash, chains[index]);
    }

    // Removes a key; its value, NULL for a missing key, is handed back or freed.
    method Remove(key: Key, keep: bool) returns (value: Pointer)
      requires Valid()
      modifies this, table, repr
      ensures Valid() && repr == old(repr) && table == old(table)
      ensures Step(old(Books()), Op.Remove(key, keep), Books())
      ensures value == if keep then Lookup(old(contents), key) else NULL
      ensures lost == old(lost)
    {
      hide IndexFor, HashOf, Valid;
      var hash := DoHash(key);
      CapacityIsPositive();
      var index := IndexFor(hash, capacity);
      var prev, e;
      ghost var j;
      prev, e, j := FindToRemove(key, hash, index);
      if e == null {
        assert contents - {key} == contents;
        value := ReleaseOnly(NULL, keep);
      } else {
        TakeOutCounted(prev, e, index, j);
        value := ReleaseOnly(e.value, keep);
      }
    }

    method ReleaseOnly(value: Pointer, keep: bool) returns (out: Pointer)
      requires Valid()
      modifies `freed, `handed
      ensures Valid() && Books() == Released(old(Books()), value, keep)
      ensures out == if keep then value else NULL
    {
      hide Shaped, Stored, Sized;
      out := CopyOrFree(value, keep);
    }

    method TakeOutCounted(prev: HashMapEntry, e: HashMapEntry, index: nat, ghost j: nat)
      requires Valid() && e.key in directory && directory[e.key] == e
      requires index < capacity == |chains| && j < |chains[index]| && e == chains[index][j]
      requires prev == if j == 0 then e else chains[index][j - 1]
      modifies `size, `contents, `chains, `directory, table, repr`next
      ensures Valid() && contents == old(contents) - {e.key} && e.value == old(e.value)
    {
      hide Shaped, Stored, PowerOfTwo;
      SmallerByOne(directory, e.key);
      TakeOut(prev, e, index, j);
      size := size - 1;
    }

    // The inner loop of Clear: the values of one bucket go to the free function.
    method FreeBucket(head: HashMapEntry?, ghost chain: seq<HashMapEntry>, ghost left: map<Key, Pointer>)
      requires Linked(head, chain)
      requires forall j, k :: 0 <= j < k < |chain| ==> chain[j].key != chain[k].key
      requires forall e :: e in chain ==> e.key in left && left[e.key] == e.value
      modifies `freed
      ensures SameOwners(old(freed), left, freed, left - KeysOf(chain))
    {
      hide SameOwners, KeysOf;
      var e := head;
      ghost var m := 0;
      KeysOfPrefix(chain, 0);
      assert left - {} == left;
      SameOwnersIsAnEquivalence(freed, left, freed, left, freed, left);
      while e != null
        invariant m <= |chain| && e == At(chain, m)
        invariant SameOwners(old(freed), left, freed, left - KeysOf(chain[..m]))
        decreases |chain| - m
      {
        freed := freed + [e.value];
        OneMoreFreed(old(freed), left, freed[..|freed| - 1], chain, m);
        e := e.next;
        m := m + 1;
      }
      assert chain[..m] == chain;
    }

    // The loops of Clear.
    method FreeAll()
      requires Shaped() && Stored()
      modifies `freed, table
      ensures forall i :: 0 <= i < capacity ==> table[i] == null
      ensures SameOwners(old(freed), contents, freed, map[])
    {
      hide IndexFor, HashOf, Linked, KeysOf, SameOwners, Waiting;
      WaitingEnds(chains, directory, contents);
      SameOwnersIsAnEquivalence(freed, contents, freed, contents, freed, contents);
      for i := 0 to capacity
        invariant forall j :: 0 <= j < i ==> table[j] == null
        invariant forall j :: i <= j < capacity ==> Linked(table[j], chains[j])
        invariant SameOwners(old(freed), contents, freed, Waiting(chains, directory, contents, i))
      {
        LinkedIsDistinct(table[i], chains[i]);
        WaitingStep(chains, directory, contents, i);
        ghost var left, before := Waiting(chains, directory, contents, i), freed;
        FreeBucket(table[i], chains[i], left);
        SameOwnersIsAnEquivalence(old(freed), contents, before, left, freed, left - KeysOf(chains[i]));
        table[i] := null;
      }
    }

    // Every value is freed once and the buckets are emptied, but the size keeps counting what was dropped.
    method Clear()
      requires Valid()
      modifies `contents, `freed, `chains, `directory, `lost, table
      ensures Valid()
      ensures Step(old(Books()), Op.Clear, Books())
      ensures size == lost == old(size)
    {
      hide Chained, Filed, SameOwners, PowerOfTwo, IsCleared, NoEntries;
      NoEntriesLength(capacity);
      FreeAll();
      NullTableIsChained(table, repr);
      ClearedWhenNothingIsLeft(old(Books()), freed);
      contents, directory := map[], map[];
      chains := NoEntries(capacity);
      lost := size;
    }

    lemma CapacityIsPositive()
      requires Valid()
      ensures capacity > 0
    {
    }
  }

  lemma SmallerByOne(directory: map<Key, HashMapEntry>, key: Key)
    requires key in directory
    ensures |directory - {key}| + 1 == |directory|
  {
    assert (directory - {key}).Keys + {key} == directory.Keys;
  }

  // Two different powers of two are at least a factor of two apart.
  lemma {:induction false} PowerBelow(a: nat, b: nat)
    requires PowerOfTwo(a) && PowerOfTwo(b) && a < b
    ensures 2 * a <= b && PowerOfTwo(2 * a)
  {
    if a > 1 {
      PowerBelow(a / 2, b / 2);
    }
  }

  ghost function KeysOf(chain: seq<HashMapEntry>): set<Key> {
    set e | e in chain :: e.key
  }

  lemma KeysOfPrefix(chain: seq<HashMapEntry>, m: nat)
    ensures m == 0 ==> KeysOf(chain[..0]) == {}
    ensures m < |chain| ==> KeysOf(chain[..m + 1]) == KeysOf(chain[..m]) + {chain[m].key}
  {
    if m < |chain| {
      assert chain[..m + 1] == chain[..m] + [chain[m]];
    }
  }

  lemma OneMoreFreed(before: seq<Pointer>, left: map<Key, Pointer>, freed: seq<Pointer>, chain: seq<HashMapEntry>,
                     m: nat)
    requires m < |chain| && chain[m].key in left
    requires forall j, k :: 0 <= j < k < |chain| ==> chain[j].key != chain[k].key
    requires SameOwners(before, left, freed, left - KeysOf(chain[..m]))
    ensures SameOwners(before, left, freed + [left[chain[m].key]], left - KeysOf(chain[..m + 1]))
  {
    hide SameOwners;
    var rest := left - KeysOf(chain[..m]);
    KeysOfPrefix(chain, m);
    assert rest - {chain[m].key} == left - KeysOf(chain[..m + 1]);
    FreeingOneKeepsOwners(freed, rest, chain[m].key);
    SameOwnersIsAnEquivalence(before, left, freed, rest, freed + [left[chain[m].key]], rest - {chain[m].key});
  }

  // The stored keys whose bucket is not before i.
  ghost function Waiting(chains: seq<seq<HashMapEntry>>, directory: map<Key, HashMapEntry>,
                         contents: map<Key, Pointer>, i: nat): map<Key, Pointer>
    requires |chains| > 0
  {
    map k | k in contents && k in directory && i <= IndexFor(directory[k].hash, |chains|) :: contents[k]
  }

  lemma WaitingEnds(chains: seq<seq<HashMapEntry>>, directory: map<Key, HashMapEntry>, contents: map<Key, Pointer>)
    requires |chains| > 0 && contents.Keys == directory.Keys
    ensures Waiting(chains, directory, contents, 0) == contents
    ensures Waiting(chains, directory, contents, |chains|) == map[]
  {
    hide IndexFor;
  }

  lemma WaitingStep(chains: seq<seq<HashMapEntry>>, directory: map<Key, HashMapEntry>, contents: map<Key, Pointer>,
                    i: nat)
    requires i < |chains| && contents.Keys == directory.Keys && Filed(chains, directory)
    requires forall j, e :: 0 <= j < |chains| && e in chains[j] ==> IndexFor(e.hash, |chains|) == j
    ensures Waiting(chains, directory, contents, i) - KeysOf(chains[i])
         == Waiting(chains, directory, contents, i + 1)
    ensures forall e :: e in chains[i] ==> e.key in Waiting(chains, directory, contents, i)
    ensures forall e :: e in chains[i] ==> Waiting(chains, directory, contents, i)[e.key] == contents[e.key]
    ensures forall e :: e in chains[i] ==> e.key in directory && directory[e.key] == e
    ensures forall j, k :: 0 <= j < k < |chains[i]| && chains[i][j] != chains[i][k] ==>
      chains[i][j].key != chains[i][k].key
  {
    hide IndexFor, HashOf;
  }

  // Every sequence of calls refines the account: put, get, remove and clear in any order, across rehashes.
  method Perform(m: HashMap, op: Op)
    requires m.Valid()
    modifies m, m.table, m.repr
    ensures m.Valid() && fresh(m.repr - old(m.repr)) && (m.table == old(m.table) || fresh(m.table))
    ensures Step(old(m.Books()), op, m.Books())
    ensures m.lost == old(if op.Clear? then |m.contents| + m.lost else m.lost)
  {
    hide Step, HashMap.Valid;
    m.SizeCountsKeys();
    match op
    case Put(key, value, keep) =>
      var _ := m.Put(key, value, keep);
    case Get(key) =>
      var _ := m.Get(key);
      StepOfGet(m.Books(), key);
    case Remove(key, keep) =>
      var _ := m.Remove(key, keep);
    case Clear =>
      m.Clear();
  }

  lemma StepOfGet(a: Account, key: Key)
    ensures Step(a, Get(key), a)
  {
  }

  // What the size counts beyond the keys after n calls: the keys that the map had at each Clear.
  function LostAfter(states: seq<Account>, ops: seq<Op>, n: nat, lost: nat): nat
    requires n <= |ops| == |states| - 1
  {
    if n == 0 then lost
    else LostAfter(states, ops, n - 1, lost) + if ops[n - 1].Clear? then |states[n - 1].contents| else 0
  }

  lemma {:induction false} LostKeepsPrefix(states: seq<Account>, ops: seq<Op>, s: Account, op: Op, n: nat, lost: nat)
    requires n <= |ops| == |states| - 1
    ensures LostAfter(states + [s], ops + [op], n, lost) == LostAfter(states, ops, n, lost)
  {
    if n > 0 {
      LostKeepsPrefix(states, ops, s, op, n - 1, lost);
    }
  }

  // Nothing is lost exactly if every Clear met an empty map.
  lemma {:induction false} NothingLostExactly(states: seq<Account>, ops: seq<Op>, n: nat)
    requires n <= |ops| == |states| - 1
    ensures LostAfter(states, ops, n, 0) == 0 <==>
      forall i :: 0 <= i < n && ops[i].Clear? ==> states[i].contents == map[]
  {
    if n > 0 {
      NothingLostExactly(states, ops, n - 1);
      EmptyExactly(states[n - 1].contents);
    }
  }

  lemma EmptyExactly(m: map<Key, Pointer>)
    ensures |m| == 0 <==> m == map[]
  {
  }

  // A map whose size was its number of keys has it still exactly if every Clear of the run met an empty map.
  method PerformAll(m: HashMap, ops: seq<Op>) returns (ghost states: seq<Account>)
    requires m.Valid()
    modifies m, m.table, m.repr
    ensures m.Valid() && IsRun(states, ops)
    ensures states[0] == old(m.Books()) && states[|ops|] == m.Books()
    ensures m.size == |m.contents| + LostAfter(states, ops, |ops|, old(m.size - |m.contents|))
    ensures old(m.size == |m.contents|) ==>
      (m.size == |m.contents| <==> forall i :: 0 <= i < |ops| && ops[i].Clear? ==> states[i].contents == map[])
  {
    hide Step, HashMap.Valid, LostAfter;
    states := [m.Books()];
    ghost var lost := m.lost;
    m.SizeCountsKeys();
    FirstState(states, [], lost);
    assert ops[..0] == [];
    for i := 0 to |ops|
      invariant m.Valid() && fresh(m.repr - old(m.repr)) && (m.table == old(m.table) || fresh(m.table))
      invariant |states| == i + 1 && states[0] == old(m.Books()) && states[i] == m.Books()
      invariant forall j :: 0 <= j < i ==> Step(states[j], ops[j], states[j + 1])
      invariant m.lost == LostAfter(states, ops[..i], i, lost)
    {
      Perform(m, ops[i]);
      NextState(states, ops[..i], m.Books(), ops[i], lost);
      assert ops[..i + 1] == ops[..i] + [ops[i]];
      states := states + [m.Books()];
    }
    m.SizeCountsKeys();
    assert ops[..|ops|] == ops;
    NothingLostExactly(states, ops, |ops|);
  }

  lemma FirstState(states: seq<Account>, ops: seq<Op>, lost: nat)
    requires |ops| == |states| - 1
    ensures LostAfter(states, ops, 0, lost) == lost
  {
  }

  lemma NextState(states: seq<Account>, ops: seq<Op>, s: Account, op: Op, lost: nat)
    requires |ops| == |states| - 1
    ensures LostAfter(states + [s], ops + [op], |ops| + 1, lost) ==
      LostAfter(states, ops, |ops|, lost) + if op.Clear? then |states[|ops|].contents| else 0
  {
    LostKeepsPrefix(states, ops, s, op, |ops|, lost);
  }
}
