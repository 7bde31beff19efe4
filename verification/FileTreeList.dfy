// List yields exactly the mapped paths whose value matches, each once (src/pextlib1.0/filemap.c).
module FileTreeList {
  import opened CaseFold
  import opened FileTree
  import opened FileTreeMap
  import opened FileTreeCanon

  // Names below the root are not empty and hold no '/'.
  predicate ProperName(name: string) {
    name != [] && '/' !in name
  }

  predicate ProperNames(n: Node) {
    n.Dir? ==> forall i :: 0 <= i < |n.kids| ==> ProperName(n.kids[i].name) && ProperNames(n.kids[i])
  }

  // ----- paths and keys

  lemma {:induction false} SkipsNothing(p: string, q: string)
    requires p != [] ==> p[|p|-1] == '/'
    ensures SkipSlashes(p) == [] ==> SkipSlashes(p + q) == SkipSlashes(q)
    ensures SkipSlashes(p) != [] ==> SkipSlashes(p + q) == SkipSlashes(p) + q
    ensures SkipSlashes(p) != [] ==> SkipSlashes(p)[|SkipSlashes(p)|-1] == '/'
  {
    if p == [] {
      assert p + q == q;
    } else if p[0] == '/' {
      assert (p + q)[1..] == p[1..] + q;
      if |p| > 1 { assert p[1..][|p|-2] == p[|p|-1]; }
      SkipsNothing(p[1..], q);
    }
  }

  lemma {:induction false} FirstPart(name: string, rest: string)
    requires '/' !in name && (rest == [] || rest[0] == '/')
    ensures PartLength(name + rest) == |name|
  {
    if name != [] {
      assert name[0] in name && (name + rest)[1..] == name[1..] + rest;
      FirstPart(name[1..], rest);
    } else {
      assert name + rest == rest;
    }
  }

  // A directory path p, and p followed by q, start with the same name and go on alike.
  lemma FirstPartOfContinued(p: string, q: string)
    requires p != [] && p[|p|-1] == '/' && p[0] != '/'
    ensures var n := PartLength(p);
      && n < |p| && PartLength(p + q) == n && (p + q)[..n] == p[..n] && (p + q)[n+1..] == p[n+1..] + q
      && (n + 1 < |p| ==> p[n+1..][|p|-n-2] == '/')
  {
    var n := PartLength(p);
    assert p[..|p|] == p && p[|p|-1] in p;
    FirstPart(p[..n], p[n..] + q);
    assert p[..n] + (p[n..] + q) == p + q;
  }

  // The names of a path that continues a directory path.
  lemma {:induction false} PartsOfContinued(p: string, q: string)
    requires p != [] ==> p[|p|-1] == '/'
    ensures Parts(p + q) == Parts(p) + Parts(q)
    decreases |p|
  {
    hide SkipSlashes, PartLength;
    SkipsNothing(p, q);
    var s := SkipSlashes(p);
    if s != [] {
      FirstPartOfContinued(s, q);
      var n := PartLength(s);
      PartsOfContinued(s[n+1..], q);
      assert Parts(p + q) == [s[..n]] + Parts(s[n+1..] + q);
      assert Parts(p) == [s[..n]] + Parts(s[n+1..]);
    } else {
      assert Parts(p) == [] && Parts(p + q) == Parts(q);
    }
  }

  lemma PartsOfName(name: string)
    requires ProperName(name)
    ensures Parts(name) == [name] && Parts(name + "/") == [name]
  {
    assert name[0] in name;
    FirstPart(name, []);
    FirstPart(name, "/");
    assert name + [] == name && SkipSlashes(name) == name && name[..|name|] == name;
    assert SkipSlashes(name + "/") == name + "/";
    assert (name + "/")[..|name|] == name && (name + "/")[|name|+1..] == [];
  }

  lemma KeyOfContinued(p: string, q: string)
    requires p != [] ==> p[|p|-1] == '/'
    ensures KeyOf(p + q) == KeyOf(p) + KeyOf(q)
  {
    PartsOfContinued(p, q);
  }

  lemma KeyOfName(name: string)
    requires ProperName(name)
    ensures KeyOf(name) == [Fold(name)] && KeyOf(name + "/") == [Fold(name)]
  {
    PartsOfName(name);
  }

  lemma {:induction false} PartsOfSlashes(path: string)
    requires forall i :: 0 <= i < |path| ==> path[i] == '/'
    ensures Parts(path) == []
  {
    if path != [] {
      PartsOfSlashes(path[1..]);
      assert SkipSlashes(path) == SkipSlashes(path[1..]);
    }
  }

  // ----- exact listings

  function KeysOf(paths: seq<string>): (r: seq<Key>)
    ensures |r| == |paths|
    ensures forall i :: 0 <= i < |r| ==> r[i] == KeyOf(paths[i])
  {
    seq(|paths|, i requires 0 <= i < |paths| => KeyOf(paths[i]))
  }

  // The sequence holds each element of the set, once, and nothing else.
  ghost predicate Exactly(keys: seq<Key>, s: set<Key>) {
    && (forall k :: k in keys <==> k in s)
    && (forall i, j :: 0 <= i < j < |keys| ==> keys[i] != keys[j])
  }

  lemma ExactlyConcat(a: seq<Key>, s: set<Key>, b: seq<Key>, t: set<Key>)
    requires Exactly(a, s) && Exactly(b, t) && s !! t
    ensures Exactly(a + b, s + t)
  {
    assert forall i :: 0 <= i < |a| ==> a[i] in a;
    assert forall i :: 0 <= i < |b| ==> b[i] in b;
  }

  // The keys at and below n whose value equals v without regard to case.
  ghost function Matching(n: Node, v: string): set<Key> {
    set k | k in Contents(n) && Fold(Contents(n)[k]) == Fold(v)
  }

  ghost function Shift(base: Key, s: set<Key>): (r: set<Key>)
    ensures forall k {:trigger k in r} :: k in r <==> base <= k && k[|base|..] in s
  {
    var r := set k | k in s :: base + k;
    forall k | base <= k && k[|base|..] in s ensures k in r { assert k == base + k[|base|..]; }
    r
  }

  // The matching keys that lead through the first count children.
  ghost function MatchingFirst(n: Node, count: nat, v: string): set<Key>
    requires n.Dir?
  {
    set k | k in Matching(n, v) && k != [] && Slot(n.kids, k[0]) < count
  }

  lemma MatchingStep(n: Node, count: nat, v: string)
    requires n.Dir? && Sorted(n) && 0 < count <= |n.kids|
    ensures var kid := n.kids[count-1];
      var below, here := MatchingFirst(n, count - 1, v), Shift([FoldedName(kid)], Matching(kid, v));
      MatchingFirst(n, count, v) == below + here && below !! here
  {
    var kid := n.kids[count-1];
    var f := FoldedName(kid);
    SlotOfKid(n.kids, count - 1);
    forall k: Key ensures k in MatchingFirst(n, count, v) <==>
        k in MatchingFirst(n, count - 1, v) || k in Shift([f], Matching(kid, v)) {
      LookupDir(n, k);
    }
  }

  lemma ShiftTwice(base: Key, f: string, s: set<Key>)
    ensures Shift(base + [f], s) == Shift(base, Shift([f], s))
  {
    forall k ensures k in Shift(base + [f], s) <==> k in Shift(base, Shift([f], s)) {
      if base <= k && |base| < |k| { assert k[|base|..][1..] == k[|base + [f]|..]; }
    }
  }

  lemma ShiftUnion(base: Key, s: set<Key>, t: set<Key>)
    ensures Shift(base, s + t) == Shift(base, s) + Shift(base, t)
    ensures s !! t ==> Shift(base, s) !! Shift(base, t)
  {
  }

  lemma KeysOfConcat(a: seq<string>, b: seq<string>)
    ensures KeysOf(a + b) == KeysOf(a) + KeysOf(b)
  {
  }

  lemma {:induction false} ListNodeIsExact(n: Node, v: string, prefix: string)
    requires Sorted(n) && ProperNames(n) && ProperName(n.name)
    requires prefix != [] && prefix[|prefix|-1] == '/'
    ensures Exactly(KeysOf(ListNode(n, v, prefix)), Shift(KeyOf(prefix) + [FoldedName(n)], Matching(n, v)))
    decreases n, if n.Dir? then |n.kids| + 1 else 0
  {
    KeyOfName(n.name);
    if n.Leaf? {
      KeyOfContinued(prefix, n.name);
      assert Matching(n, v) == if Fold(n.value) == Fold(v) then {[]} else {};
      if Fold(n.value) == Fold(v) {
        var k := KeyOf(prefix) + [FoldedName(n)];
        assert KeysOf(ListNode(n, v, prefix)) == [k];
        forall k' ensures k' in Shift(k, {[]}) <==> k' == k {
          if k <= k' && k'[|k|..] == [] { assert k' == k + k'[|k|..]; }
        }
      }
    } else {
      KeyOfContinued(prefix, n.name + "/");
      assert prefix + (n.name + "/") == prefix + n.name + "/";
      ListKidsIsExact(n, |n.kids|, v, prefix + n.name + "/");
      AllChildrenMatched(n, v);
    }
  }

  lemma AllChildrenMatched(n: Node, v: string)
    requires n.Dir? && Sorted(n)
    ensures MatchingFirst(n, |n.kids|, v) == Matching(n, v)
  {
    forall k | k in Matching(n, v) ensures k in MatchingFirst(n, |n.kids|, v) { LookupDir(n, k); }
  }

  lemma NothingIsExact(n: Node, v: string, prefix: string)
    requires n.Dir?
    ensures Exactly(KeysOf(ListKids(n, 0, v, prefix)), Shift(KeyOf(prefix), MatchingFirst(n, 0, v)))
  {
  }

  lemma {:induction false} ListKidsIsExact(n: Node, count: nat, v: string, prefix: string)
    requires n.Dir? && Sorted(n) && ProperNames(n) && count <= |n.kids|
    requires prefix != [] && prefix[|prefix|-1] == '/'
    ensures Exactly(KeysOf(ListKids(n, count, v, prefix)), Shift(KeyOf(prefix), MatchingFirst(n, count, v)))
    decreases n, count
  {
    hide Exactly, Shift, KeysOf, KeyOf, Matching, MatchingFirst, ListNode;
    if count == 0 {
      NothingIsExact(n, v, prefix);
      return;
    }
    var kid := n.kids[count-1];
    var f, base := FoldedName(kid), KeyOf(prefix);
    var before, here := ListKids(n, count - 1, v, prefix), ListNode(kid, v, prefix);
    ListKidsIsExact(n, count - 1, v, prefix);
    ListNodeIsExact(kid, v, prefix);
    MatchingStep(n, count, v);
    ShiftTwice(base, f, Matching(kid, v));
    ShiftUnion(base, MatchingFirst(n, count - 1, v), Shift([f], Matching(kid, v)));
    ExactlyConcat(KeysOf(before), Shift(base, MatchingFirst(n, count - 1, v)),
                  KeysOf(here), Shift(base, Shift([f], Matching(kid, v))));
    KeysOfConcat(before, here);
  }

  // List on the root: every mapped path with a matching value, each exactly once.
  lemma ListIsExact(root: Node, v: string)
    requires root.Dir? && root.name == "" && Sorted(root) && ProperNames(root)
    ensures Exactly(KeysOf(ListNode(root, v, "")), Matching(root, v))
  {
    ListKidsIsExact(root, |root.kids|, v, "/");
    assert "" + root.name + "/" == "/";
    assert KeyOf("/") == [];
    AllChildrenMatched(root, v);
    assert Shift([], Matching(root, v)) == Matching(root, v);
  }

  // Set keeps the names proper, whatever path it is given.
  lemma {:induction false} SetKeepsProperNames(n: Node, parts: seq<string>, slash: bool, v: string)
    requires n.Dir? && ProperNames(n)
    requires forall i :: 0 <= i < |parts| ==> ProperName(parts[i])
    ensures ProperNames(SetNode(n, parts, slash, v).1)
    decreases |parts|
  {
    if parts == [] { return; }
    var isDir := |parts| > 1 || slash;
    var kids := WithKid(n.kids, parts[0], isDir);
    var kid := kids[Slot(n.kids, Fold(parts[0]))];
    assert forall j :: 0 <= j < |kids| ==> ProperName(kids[j].name) && ProperNames(kids[j]);
    if isDir && kid.Dir? { SetKeepsProperNames(kid, parts[1..], slash, v); }
  }

  lemma {:induction false} DeleteKeepsProperNames(n: Node, parts: seq<string>, slash: bool)
    requires n.Dir? && ProperNames(n) && NoFileOnTheWay(n, parts, slash)
    ensures ProperNames(DeleteNode(n, parts, slash).1)
    decreases |parts|
  {
    if parts == [] || !Hit(n.kids, Fold(parts[0])) { return; }
    if |parts| > 1 || slash {
      DeleteKeepsProperNames(n.kids[Slot(n.kids, Fold(parts[0]))], parts[1..], slash);
    }
  }

  lemma StepKeepsProperNames(n: Node, op: Op)
    requires Canonical(n) && ProperNames(n)
    requires op.DeleteOp? ==> NoFileOnTheWay(n, Parts(op.path), EndsInSlash(op.path))
    ensures ProperNames(StepTree(n, op).1)
  {
    if op.SetOp? {
      SetKeepsProperNames(n, Parts(op.path), EndsInSlash(op.path), op.value);
    } else {
      DeleteKeepsProperNames(n, Parts(op.path), EndsInSlash(op.path));
    }
  }

  lemma {:induction false} RunKeepsProperNames(n: Node, ops: seq<Op>)
    requires Canonical(n) && AdmissibleRun(Contents(n), ops) && ProperNames(n)
    ensures ProperNames(RunTree(n, ops).1)
    decreases ops
  {
    if ops != [] {
      StepRefinesMap(n, ops[0]);
      StepKeepsProperNames(n, ops[0]);
      RunKeepsProperNames(StepTree(n, ops[0]).1, ops[1..]);
    }
  }

  // What List answers after any run.
  lemma ListAfterRun(ops: seq<Op>, v: string)
    requires AdmissibleRun(Contents(EMPTY), ops)
    ensures var m := RunMap(map[], ops).1;
      Exactly(KeysOf(ListNode(RunTree(EMPTY, ops).1, v, "")), set k | k in m && Fold(m[k]) == Fold(v))
  {
    CreateIsEmpty();
    RunKeepsProperNames(EMPTY, ops);
    ListIsExact(RunTree(EMPTY, ops).1, v);
  }
}
