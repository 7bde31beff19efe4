// What the hash map owes its callers: a finite map from keys to values, and an account of every value.
// A value pointer is a number, NULL is 0; the caller's free function and out pointers are logs.
module HashMapOwnership {
  import opened HashCode

  type Pointer = nat
  const NULL: Pointer := 0

  // contents: stored values; freed: arguments of the free function; handed: values given back to callers.
  datatype Account = Account(contents: map<Key, Pointer>, freed: seq<Pointer>, handed: seq<Pointer>)

  function Lookup(m: map<Key, Pointer>, key: Key): Pointer {
    if key in m then m[key] else NULL
  }

  // A value that leaves its entry goes back to a caller who passed an out pointer, and is freed otherwise.
  function Released(a: Account, value: Pointer, keep: bool): Account {
    if keep then a.(handed := a.handed + [value]) else a.(freed := a.freed + [value])
  }

  function AfterPut(a: Account, key: Key, value: Pointer, keep: bool): Account {
    Released(a, Lookup(a.contents, key), keep).(contents := a.contents[key := value])
  }

  function AfterRemove(a: Account, key: Key, keep: bool): Account {
    Released(a, Lookup(a.contents, key), keep).(contents := a.contents - {key})
  }

  // What a put makes of the account: the old value, NULL for a new key, is handed back or freed.
  lemma PutAccounts(a: Account, key: Key, value: Pointer, keep: bool)
    ensures var b := AfterPut(a, key, value, keep);
      var previous := if key in a.contents then a.contents[key] else 0;
      && b.contents == a.contents[key := value]
      && (keep ==> b.handed == a.handed + [previous] && b.freed == a.freed)
      && (!keep ==> b.handed == a.handed && b.freed == a.freed + [previous])
  {
  }

  // What a removal makes of it.
  lemma RemoveAccounts(a: Account, key: Key, keep: bool)
    ensures var b := AfterRemove(a, key, keep);
      var previous := if key in a.contents then a.contents[key] else 0;
      && (forall k :: k in b.contents <==> k in a.contents && k != key)
      && (forall k :: k in b.contents ==> b.contents[k] == a.contents[k])
      && (keep ==> b.handed == a.handed + [previous] && b.freed == a.freed)
      && (!keep ==> b.handed == a.handed && b.freed == a.freed + [previous])
  {
  }

  // Clearing frees every stored value, as often as it is stored and in any order.
  ghost predicate IsCleared(a: Account, b: Account) {
    && b.contents == map[]
    && b.handed == a.handed
    && forall p :: multiset(b.freed)[p] == multiset(a.freed)[p] + |Owners(a.contents, p)|
  }

  function Owners(m: map<Key, Pointer>, p: Pointer): set<Key> {
    set k | k in m && m[k] == p
  }

  // Freed and still stored values agree in number between two stages of a clearing.
  ghost predicate SameOwners(freed: seq<Pointer>, left: map<Key, Pointer>,
                             freed': seq<Pointer>, left': map<Key, Pointer>)
  {
    forall p :: multiset(freed)[p] + |Owners(left, p)| == multiset(freed')[p] + |Owners(left', p)|
  }

  lemma SameOwnersIsAnEquivalence(f1: seq<Pointer>, l1: map<Key, Pointer>, f2: seq<Pointer>, l2: map<Key, Pointer>,
                                  f3: seq<Pointer>, l3: map<Key, Pointer>)
    ensures SameOwners(f1, l1, f1, l1)
    ensures SameOwners(f1, l1, f2, l2) && SameOwners(f2, l2, f3, l3) ==> SameOwners(f1, l1, f3, l3)
  {
    hide Owners;
  }

  lemma FreeingOneKeepsOwners(freed: seq<Pointer>, left: map<Key, Pointer>, key: Key)
    requires key in left
    ensures SameOwners(freed, left, freed + [left[key]], left - {key})
  {
    hide Owners;
    forall p
      ensures multiset(freed)[p] + |Owners(left, p)|
           == multiset(freed + [left[key]])[p] + |Owners(left - {key}, p)|
    {
      OwnersOfRemove(left, key, p);
    }
  }

  lemma ClearedWhenNothingIsLeft(a: Account, freed: seq<Pointer>)
    requires SameOwners(a.freed, a.contents, freed, map[])
    ensures IsCleared(a, Account(map[], freed, a.handed))
  {
    hide Owners;
    forall p
      ensures multiset(freed)[p] == multiset(a.freed)[p] + |Owners(a.contents, p)|
    {
      EmptyHasNoOwners(p);
    }
  }

  // How often p is stored, freed or handed back.
  function Accounted(a: Account, p: Pointer): nat {
    |Owners(a.contents, p)| + multiset(a.freed)[p] + multiset(a.handed)[p]
  }

  datatype Op =
    | Put(key: Key, value: Pointer, keep: bool)
    | Get(key: Key)
    | Remove(key: Key, keep: bool)
    | Clear

  ghost predicate Step(a: Account, op: Op, b: Account) {
    match op
    case Put(k, v, keep) => b == AfterPut(a, k, v, keep)
    case Get(_) => b == a
    case Remove(k, keep) => b == AfterRemove(a, k, keep)
    case Clear => IsCleared(a, b)
  }

  lemma OwnersButOne(m: map<Key, Pointer>, key: Key, p: Pointer)
    requires p != NULL
    ensures |Owners(m, p)| == |Owners(m, p) - {key}| + (if Lookup(m, key) == p then 1 else 0)
  {
    var without := Owners(m, p) - {key};
    assert Owners(m, p) == if Lookup(m, key) == p then without + {key} else without;
  }

  lemma OwnersOfPut(m: map<Key, Pointer>, key: Key, value: Pointer, p: Pointer)
    requires p != NULL
    ensures |Owners(m[key := value], p)| + (if Lookup(m, key) == p then 1 else 0)
         == |Owners(m, p)| + (if value == p then 1 else 0)
  {
    OwnersButOne(m, key, p);
    OwnersButOne(m[key := value], key, p);
    assert Owners(m[key := value], p) - {key} == Owners(m, p) - {key};
  }

  lemma OwnersOfRemove(m: map<Key, Pointer>, key: Key, p: Pointer)
    ensures key in m ==> |Owners(m - {key}, p)| + (if m[key] == p then 1 else 0) == |Owners(m, p)|
    ensures key !in m ==> m - {key} == m
  {
    if key in m {
      var without := Owners(m, p) - {key};
      assert Owners(m - {key}, p) == without;
      assert Owners(m, p) == if m[key] == p then without + {key} else without;
    }
  }

  // One operation accounts for one more p exactly when it is a put of p.
  lemma StepAccounts(a: Account, op: Op, b: Account, p: Pointer)
    requires Step(a, op, b) && p != NULL
    ensures Accounted(b, p) == Accounted(a, p) + (if op.Put? && op.value == p then 1 else 0)
  {
    hide Owners;
    match op
    case Put(k, v, keep) =>
      OwnersOfPut(a.contents, k, v, p);
    case Get(_) =>
    case Remove(k, keep) =>
      OwnersOfRemove(a.contents, k, p);
    case Clear =>
      assert |Owners(map[], p)| == 0 by { EmptyHasNoOwners(p); }
  }

  lemma EmptyHasNoOwners(p: Pointer)
    ensures Owners(map[], p) == {}
  {
  }

  ghost predicate IsRun(states: seq<Account>, ops: seq<Op>) {
    && |states| == |ops| + 1
    && forall i :: 0 <= i < |ops| ==> Step(states[i], ops[i], states[i + 1])
  }

  function TimesPut(ops: seq<Op>, p: Pointer): nat {
    if ops == [] then 0
    else TimesPut(ops[..|ops| - 1], p) + (if ops[|ops| - 1].Put? && ops[|ops| - 1].value == p then 1 else 0)
  }

  // Over every run each value is stored, freed and handed back as often, together, as it was put.
  lemma {:induction false} RunConserves(states: seq<Account>, ops: seq<Op>, p: Pointer)
    requires IsRun(states, ops) && p != NULL
    ensures Accounted(states[|ops|], p) == Accounted(states[0], p) + TimesPut(ops, p)
    decreases |ops|
  {
    if ops != [] {
      var n := |ops| - 1;
      assert states[..n + 1][n] == states[n];
      RunConserves(states[..n + 1], ops[..n], p);
      StepAccounts(states[n], ops[n], states[n + 1], p);
    }
  }

  const EMPTY := Account(map[], [], [])

  // A value put once is, at any time, in exactly one of the three places and there exactly once.
  lemma ValuesHaveOneOwner(states: seq<Account>, ops: seq<Op>, p: Pointer)
    requires IsRun(states, ops) && states[0] == EMPTY
    requires p != NULL && TimesPut(ops, p) == 1
    ensures ExactlyOne(|Owners(states[|ops|].contents, p)|,
                       multiset(states[|ops|].freed)[p],
                       multiset(states[|ops|].handed)[p])
  {
    hide Owners;
    RunConserves(states, ops, p);
    EmptyHasNoOwners(p);
    assert Accounted(EMPTY, p) == 0;
  }

  predicate ExactlyOne(stored: nat, freed: nat, handed: nat) {
    || (stored == 1 && freed == handed == 0)
    || (freed == 1 && stored == handed == 0)
    || (handed == 1 && stored == freed == 0)
  }
}
