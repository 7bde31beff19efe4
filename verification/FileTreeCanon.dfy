// The filemap tree is canonical: it is determined by the map it stands for.
module FileTreeCanon {
  import opened CTypes
  import opened CaseFold
  import opened FileTree
  import opened FileTreeMap

  // ----- result codes are a function of the map

  // A proper, non-empty prefix of k is mapped: the path leads through a file.
  ghost predicate FileAbove(m: map<Key, string>, k: Key) {
    exists j :: 0 < j < |k| && k[..j] in m
  }

  // Some mapped path lies strictly below k: k is a directory.
  ghost predicate HasBelow(m: map<Key, string>, k: Key) {
    exists k' :: k' in m && |k| < |k'| && k <= k'
  }

  // The code Set returns, said in terms of the map alone.
  ghost function SetStatus(m: map<Key, string>, k: Key, slash: bool): Status {
    if k == [] then IsDirectory
    else if FileAbove(m, k) || (slash && k in m) then NotDirectory
    else if slash || HasBelow(m, k) then IsDirectory
    else Ok
  }

  ghost function DeleteStatus(m: map<Key, string>, k: Key, slash: bool): Status {
    if k == [] then IsDirectory
    else if HasBelow(m, k) then if slash then IsDirectory else Ok
    else if k in m && !slash then Ok
    else NotFound
  }

  ghost function Strip(m: map<Key, string>, f: string): (r: map<Key, string>)
    ensures forall k {:trigger k in r} :: k in r <==> [f] + k in m
    ensures forall k {:trigger r[k]} :: k in r ==> r[k] == m[[f] + k]
  {
    var keys := set k | k in m.Keys && k != [] && k[0] == f :: k[1..];
    forall k | [f] + k in m ensures k in keys {
      assert ([f] + k)[1..] == k;
    }
    forall k | k in keys ensures [f] + k in m {
      var k' :| k' in m.Keys && k' != [] && k'[0] == f && k'[1..] == k;
      assert k' == [f] + k;
    }
    map k | k in keys :: m[[f] + k]
  }

  // The map of a child is what the parent's map holds under the child's name.
  lemma ChildContents(n: Node, f: string)
    requires n.Dir? && SortedKids(n.kids)
    ensures Hit(n.kids, f) ==> Contents(n.kids[Slot(n.kids, f)]) == Strip(Contents(n), f)
    ensures !Hit(n.kids, f) ==> Strip(Contents(n), f) == map[]
  {
    forall k: Key ensures KidAt(n.kids, f).Some? ==> Lookup(KidAt(n.kids, f).value, k) == Lookup(n, [f] + k)
            ensures KidAt(n.kids, f).None? ==> [f] + k !in Contents(n) {
      LookupDir(n, [f] + k);
      assert ([f] + k)[1..] == k;
    }
    if Hit(n.kids, f) {
      SameLookups(n.kids[Slot(n.kids, f)], Strip(Contents(n), f));
    }
  }

  // Below the root of a pruned tree something is mapped.
  lemma {:induction false} SomethingIsMapped(n: Node) returns (k: Key)
    requires Sorted(n) && Pruned(n) && (n.Dir? ==> n.kids != [])
    ensures k in Contents(n)
    ensures n.Dir? ==> k != []
  {
    if n.Leaf? {
      k := [];
    } else {
      var k' := SomethingIsMapped(n.kids[0]);
      k := [FoldedName(n.kids[0])] + k';
      SlotOfKid(n.kids, 0);
      LookupDir(n, k);
      assert k[1..] == k';
    }
  }

  lemma HasBelowStrip(m: map<Key, string>, k: Key)
    requires |k| > 1
    ensures HasBelow(m, k) <==> HasBelow(Strip(m, k[0]), k[1..])
  {
    if HasBelow(m, k) {
      var k' :| k' in m && |k| < |k'| && k <= k';
      assert k' == [k[0]] + k'[1..] && k[1..] <= k'[1..];
    }
    if HasBelow(Strip(m, k[0]), k[1..]) {
      var k' :| k' in Strip(m, k[0]) && |k| - 1 < |k'| && k[1..] <= k';
      assert k <= [k[0]] + k';
    }
  }

  lemma FileAboveStrip(m: map<Key, string>, k: Key)
    requires |k| > 1
    ensures FileAbove(m, k) <==> [k[0]] in m || FileAbove(Strip(m, k[0]), k[1..])
  {
    if FileAbove(m, k) {
      var j :| 0 < j < |k| && k[..j] in m;
      assert k[..j] == [k[0]] + k[1..][..j-1];
      assert j == 1 ==> k[..j] == [k[0]];
    }
    if FileAbove(Strip(m, k[0]), k[1..]) {
      var j :| 0 < j < |k| - 1 && k[1..][..j] in Strip(m, k[0]);
      assert k[..j+1] == [k[0]] + k[1..][..j];
    }
    if [k[0]] in m { assert k[..1] == [k[0]]; }
  }

  lemma SetStatusBelow(m: map<Key, string>, k: Key, slash: bool)
    requires |k| > 1 && [] !in m
    ensures SetStatus(m, k, slash) ==
      if [k[0]] in m then NotDirectory else SetStatus(Strip(m, k[0]), k[1..], slash)
    ensures DeleteStatus(m, k, slash) == DeleteStatus(Strip(m, k[0]), k[1..], slash)
  {
    HasBelowStrip(m, k);
    FileAboveStrip(m, k);
    assert k == [k[0]] + k[1..];
  }

  lemma DirMapsNoEmptyKey(n: Node)
    requires n.Dir? && Sorted(n)
    ensures [] !in Contents(n)
  {
    LookupDir(n, []);
  }

  lemma OneNameMapped(n: Node, f: string)
    requires n.Dir? && Sorted(n)
    ensures [f] in Contents(n) <==> KidAt(n.kids, f).Some? && KidAt(n.kids, f).value.Leaf?
  {
    hide Contents;
    LookupDir(n, [f]);
    assert [f][1..] == [];
    if Hit(n.kids, f) {
      var kid := n.kids[Slot(n.kids, f)];
      if kid.Dir? {
        DirMapsNoEmptyKey(kid);
      } else {
        LeafMapsEmptyKey(kid);
      }
    }
  }

  lemma OneNameBelow(n: Node, f: string)
    requires n.Dir? && Sorted(n) && Pruned(n)
    ensures HasBelow(Contents(n), [f]) <==> KidAt(n.kids, f).Some? && KidAt(n.kids, f).value.Dir?
  {
    hide Contents;
    var m := Contents(n);
    if Hit(n.kids, f) && n.kids[Slot(n.kids, f)].Dir? {
      var kid := n.kids[Slot(n.kids, f)];
      var k := SomethingIsMapped(kid);
      LookupDir(n, [f] + k);
      assert ([f] + k)[1..] == k && [f] <= [f] + k;
    } else if HasBelow(m, [f]) {
      var k' :| k' in m && |[f]| < |k'| && [f] <= k';
      LookupDir(n, k');
      LeafMapsEmptyKey(n.kids[Slot(n.kids, f)]);
    }
  }

  lemma OneNameStatus(n: Node, f: string)
    requires n.Dir? && Sorted(n) && Pruned(n)
    ensures !FileAbove(Contents(n), [f])
    ensures [f] in Contents(n) <==> KidAt(n.kids, f).Some? && KidAt(n.kids, f).value.Leaf?
    ensures HasBelow(Contents(n), [f]) <==> KidAt(n.kids, f).Some? && KidAt(n.kids, f).value.Dir?
  {
    hide Contents, KidAt, HasBelow, Sorted, Pruned;
    OneNameMapped(n, f);
    OneNameBelow(n, f);
  }

  lemma SetStatusOfOneName(n: Node, part: string, slash: bool, v: string)
    requires n.Dir? && Sorted(n) && Pruned(n)
    ensures SetNode(n, [part], slash, v).0 == SetStatus(Contents(n), [Fold(part)], slash)
  {
    SetKidAt(n, [part], slash, v, Fold(part));
    OneNameStatus(n, Fold(part));
  }

  lemma DeleteStatusOfOneName(n: Node, part: string, slash: bool)
    requires n.Dir? && Sorted(n) && Pruned(n) && NoFileOnTheWay(n, [part], slash)
    ensures DeleteNode(n, [part], slash).0 == DeleteStatus(Contents(n), [Fold(part)], slash)
  {
    OneNameStatus(n, Fold(part));
    if Hit(n.kids, Fold(part)) && slash {
      assert [part][1..] == [];
      assert DeleteNode(n.kids[Slot(n.kids, Fold(part))], [part][1..], slash).0 == IsDirectory;
    }
  }

  // The child Set goes on in stands for the part of the map below its name.
  lemma NextContents(n: Node, part: string)
    requires n.Dir? && Sorted(n) && Pruned(n)
    ensures var kid := WithKid(n.kids, part, true)[Slot(n.kids, Fold(part))];
      && Sorted(kid) && Pruned(kid)
      && (kid.Leaf? <==> [Fold(part)] in Contents(n))
      && (kid.Dir? ==> Contents(kid) == Strip(Contents(n), Fold(part)))
  {
    WithKidAt(n.kids, part, true, Fold(part));
    OneNameStatus(n, Fold(part));
    ChildContents(n, Fold(part));
  }

  // Set succeeds, or fails with the same code, on any two pruned trees with the same map.
  lemma {:induction false} SetStatusIsDecidedByMap(n: Node, parts: seq<string>, slash: bool, v: string)
    requires n.Dir? && Sorted(n) && Pruned(n)
    ensures SetNode(n, parts, slash, v).0 == SetStatus(Contents(n), FoldAll(parts), slash)
    decreases |parts|
  {
    if |parts| <= 1 {
      if parts != [] {
        SetStatusOfOneName(n, parts[0], slash, v);
        assert parts == [parts[0]] && FoldAll(parts) == [Fold(parts[0])];
      }
      return;
    }
    var k := FoldAll(parts);
    DirMapsNoEmptyKey(n);
    SetStatusBelow(Contents(n), k, slash);
    NextContents(n, parts[0]);
    var kid := WithKid(n.kids, parts[0], true)[Slot(n.kids, k[0])];
    if kid.Dir? {
      assert k[1..] == FoldAll(parts[1..]);
      SetStatusIsDecidedByMap(kid, parts[1..], slash, v);
    }
  }

  lemma {:induction false} DeleteStatusIsDecidedByMap(n: Node, parts: seq<string>, slash: bool)
    requires n.Dir? && Sorted(n) && Pruned(n) && NoFileOnTheWay(n, parts, slash)
    ensures DeleteNode(n, parts, slash).0 == DeleteStatus(Contents(n), FoldAll(parts), slash)
    decreases |parts|
  {
    hide Contents, Fold;
    if |parts| <= 1 {
      if parts != [] {
        assert parts == [parts[0]] && FoldAll(parts) == [Fold(parts[0])];
        DeleteStatusOfOneName(n, parts[0], slash);
      }
      return;
    }
    var k, f := FoldAll(parts), Fold(parts[0]);
    DirMapsNoEmptyKey(n);
    SetStatusBelow(Contents(n), k, slash);
    ChildContents(n, f);
    if Hit(n.kids, f) {
      assert k[1..] == FoldAll(parts[1..]);
      DeleteStatusIsDecidedByMap(n.kids[Slot(n.kids, f)], parts[1..], slash);
    }
  }

  // ----- pruning

  lemma {:induction false} SetKeepsPruned(n: Node, parts: seq<string>, v: string)
    requires n.Dir? && Sorted(n) && Pruned(n) && parts != []
    ensures var n' := SetNode(n, parts, false, v).1; Pruned(n') && n'.kids != []
    decreases |parts|
  {
    SetKidAt(n, parts, false, v, Fold(parts[0]));
    var kids := WithKid(n.kids, parts[0], |parts| > 1);
    var i := Slot(n.kids, Fold(parts[0]));
    assert forall j :: 0 <= j < |kids| && j != i ==> kids[j] in n.kids;
    if |parts| > 1 && kids[i].Dir? { SetKeepsPruned(kids[i], parts[1..], v); }
  }

  lemma {:induction false} DeleteKeepsPruned(n: Node, parts: seq<string>, slash: bool)
    requires n.Dir? && Sorted(n) && Pruned(n) && NoFileOnTheWay(n, parts, slash)
    ensures Pruned(DeleteNode(n, parts, slash).1)
    decreases |parts|
  {
    if parts == [] || !Hit(n.kids, Fold(parts[0])) { return; }
    if |parts| > 1 || slash { DeleteKeepsPruned(n.kids[Slot(n.kids, Fold(parts[0]))], parts[1..], slash); }
  }

  // ----- canonicity

  // The tree with every name folded to lower case.
  function FoldNames(n: Node): Node {
    match n
    case Leaf(name, value) => Leaf(Fold(name), value)
    case Dir(name, kids) => Dir(Fold(name), seq(|kids|, i requires 0 <= i < |kids| => FoldNames(kids[i])))
  }

  predicate SortedNames(names: seq<string>) {
    forall i, j :: 0 <= i < j < |names| ==> Less(names[i], names[j])
  }

  lemma Member(s: seq<string>) returns (f: string)
    requires s != []
    ensures f in s
  {
    f := s[0];
  }

  lemma {:induction false} SortedNamesAreEqual(a: seq<string>, b: seq<string>)
    requires SortedNames(a) && SortedNames(b)
    requires forall f :: f in a <==> f in b
    ensures a == b
  {
    if a == [] || b == [] {
      if a != b {
        var f := Member(if a == [] then b else a);
        assert false;
      }
      return;
    }
    assert a[0] in b && b[0] in a;
    if a[0] != b[0] {
      LessAsymmetric(b[0], a[0]);
      assert false;
    }
    LessIrreflexive(a[0]);
    forall f ensures f in a[1..] <==> f in b[1..] {
      assert f in a <==> f == a[0] || f in a[1..];
      assert f in b <==> f == b[0] || f in b[1..];
      assert a[0] !in a[1..] && b[0] !in b[1..];
    }
    SortedNamesAreEqual(a[1..], b[1..]);
    assert a == [a[0]] + a[1..] && b == [b[0]] + b[1..];
  }

  lemma KidIsSeenInMap(n: Node, f: string)
    requires n.Dir? && Sorted(n) && Pruned(n)
    ensures f in FoldedNames(n.kids) <==> Strip(Contents(n), f) != map[]
  {
    ChildContents(n, f);
    if f in FoldedNames(n.kids) {
      var i :| 0 <= i < |n.kids| && FoldedName(n.kids[i]) == f;
      SlotOfKid(n.kids, i);
      var k := SomethingIsMapped(n.kids[i]);
    } else {
      assert forall i :: 0 <= i < |n.kids| ==> FoldedName(n.kids[i]) == FoldedNames(n.kids)[i];
    }
  }

  // Two sorted, pruned trees that stand for the same map are equal up to the case of their names.
  lemma {:induction false} MapDeterminesTree(a: Node, b: Node)
    requires Sorted(a) && Pruned(a) && Sorted(b) && Pruned(b)
    requires FoldedName(a) == FoldedName(b) && Contents(a) == Contents(b)
    ensures FoldNames(a) == FoldNames(b)
    decreases a
  {
    if a.Dir? { DirMapsNoEmptyKey(a); }
    if b.Dir? { DirMapsNoEmptyKey(b); }
    if a.Leaf? || b.Leaf? {
      assert [] in Contents(a) && [] in Contents(b);
      return;
    }
    var names := FoldedNames(a.kids);
    forall f ensures f in names <==> f in FoldedNames(b.kids) {
      KidIsSeenInMap(a, f);
      KidIsSeenInMap(b, f);
    }
    SortedNamesAreEqual(names, FoldedNames(b.kids));
    forall i | 0 <= i < |a.kids| ensures FoldNames(a.kids[i]) == FoldNames(b.kids[i]) {
      assert names[i] == FoldedName(a.kids[i]) == FoldedName(b.kids[i]);
      ChildContents(a, names[i]);
      ChildContents(b, names[i]);
      SlotOfKid(a.kids, i);
      SlotOfKid(b.kids, i);
      MapDeterminesTree(a.kids[i], b.kids[i]);
    }
  }

  // ----- consequences

  // A well-formed filemap root, and its map.
  ghost predicate Canonical(n: Node) {
    n.Dir? && Sorted(n) && Pruned(n)
  }

  lemma SetBelowNewNameSucceeds(n: Node, parts: seq<string>, v: string)
    requires Canonical(n) && parts != [] && !Hit(n.kids, Fold(parts[0]))
    ensures SetNode(n, parts, false, v).0 == Ok
  {
    var f := Fold(parts[0]);
    SetStatusIsDecidedByMap(n, parts, false, v);
    ChildContents(n, f);
    DirMapsNoEmptyKey(n);
    OneNameStatus(n, f);
    assert |parts| == 1 ==> FoldAll(parts) == [f];
    if |parts| > 1 { SetStatusBelow(Contents(n), FoldAll(parts), false); }
  }

  // A Set that fails on a path without a trailing '/' leaves the identical tree.
  lemma {:induction false} FailedSetChangesNothing(n: Node, parts: seq<string>, v: string)
    requires Canonical(n) && SetNode(n, parts, false, v).0 != Ok
    ensures SetNode(n, parts, false, v).1 == n
    decreases |parts|
  {
    if parts == [] { return; }
    var f := Fold(parts[0]);
    if !Hit(n.kids, f) { SetBelowNewNameSucceeds(n, parts, v); }
    var kid := n.kids[Slot(n.kids, f)];
    if |parts| > 1 && kid.Dir? { FailedSetChangesNothing(kid, parts[1..], v); }
    assert n.kids[Slot(n.kids, f) := kid] == n.kids;
  }

  // A Set of a path that ends in '/' finds something at, above or below the path.
  ghost predicate SlashIsHarmless(m: map<Key, string>, k: Key) {
    k == [] || FileAbove(m, k) || k in m || HasBelow(m, k)
  }

  lemma NothingUnderNewName(n: Node, k: Key)
    requires n.Dir? && Sorted(n) && k != [] && !Hit(n.kids, k[0])
    ensures !SlashIsHarmless(Contents(n), k)
  {
    hide Contents;
    forall k' | k' != [] && k'[0] == k[0] ensures k' !in Contents(n) {
      LookupDir(n, k');
    }
  }

  lemma HarmlessBelow(n: Node, k: Key)
    requires n.Dir? && Sorted(n) && Pruned(n) && |k| > 1 && Hit(n.kids, k[0])
    ensures var kid := n.kids[Slot(n.kids, k[0])];
      SlashIsHarmless(Contents(n), k) <==> kid.Leaf? || SlashIsHarmless(Contents(kid), k[1..])
  {
    hide Contents;
    var m := Contents(n);
    OneNameStatus(n, k[0]);
    ChildContents(n, k[0]);
    FileAboveStrip(m, k);
    HasBelowStrip(m, k);
    assert k == [k[0]] + k[1..];
  }

  // A Set of a path that ends in '/' always fails, and leaves the tree as it was exactly when
  // the map already has something at, above or below the path.
  lemma {:induction false} SlashKeepsTreeExactly(n: Node, parts: seq<string>, v: string)
    requires Canonical(n)
    ensures SetNode(n, parts, true, v).0 != Ok
    ensures SetNode(n, parts, true, v).1 == n <==> SlashIsHarmless(Contents(n), FoldAll(parts))
    decreases |parts|
  {
    hide Contents, FileAbove, HasBelow;
    SetStatusIsDecidedByMap(n, parts, true, v);
    if parts == [] { return; }
    var k := FoldAll(parts);
    if !Hit(n.kids, k[0]) {
      NothingUnderNewName(n, k);
      assert |SetNode(n, parts, true, v).1.kids| == |n.kids| + 1;
      return;
    }
    var i := Slot(n.kids, k[0]);
    var kid := n.kids[i];
    var r := SetKid(kid, parts, true, v).1;
    assert SetNode(n, parts, true, v).1.kids == n.kids[i := r];
    assert SetNode(n, parts, true, v).1 == n <==> r == kid;
    assert k[1..] == FoldAll(parts[1..]);
    if |parts| == 1 {
      assert k == [k[0]] && parts[1..] == [];
      OneNameStatus(n, k[0]);
      if kid.Dir? { assert SetNode(kid, parts[1..], true, v).1 == kid; }
    } else {
      HarmlessBelow(n, k);
      if kid.Dir? { SlashKeepsTreeExactly(kid, parts[1..], v); }
    }
  }

  // The least case of the other kind: the empty directory that is left behind then stops a Set
  // that used to succeed.
  lemma TrailingSlashLeavesEmptyDirectory()
    ensures var empty := Dir("", []);
      var r := SetNode(empty, ["a"], true, "v");
      && r.0 == IsDirectory && Contents(r.1) == Contents(empty) && !Pruned(r.1)
      && SetNode(empty, ["a"], false, "v").0 == Ok
      && SetNode(r.1, ["a"], false, "v").0 == IsDirectory
  {
    var empty := Dir("", []);
    assert ["a"][1..] == [];
    var r := SetNode(empty, ["a"], true, "v");
    assert WithKid([], "a", true) == [Dir("a", [])];
    assert r.1.kids == [Dir("a", [])];
    SetUpdatesOneKey(empty, ["a"], true, "v");
    SlotOfKid(r.1.kids, 0);
    assert FoldedName(r.1.kids[0]) == Fold("a");
  }

  lemma UpdatesCommute(m: map<Key, string>, k: Key, v: string, k': Key, v': string)
    requires k != k'
    ensures m[k := v][k' := v'] == m[k' := v'][k := v]
  {
  }

  // Adding a key blocks only paths above or below it.
  lemma StatusAfterUpdate(m: map<Key, string>, k: Key, v: string, k': Key)
    requires k != k'
    ensures SetStatus(m, k', false) == Ok && !(k <= k') && !(k' <= k) ==> SetStatus(m[k := v], k', false) == Ok
    ensures SetStatus(m[k := v], k', false) == Ok ==> SetStatus(m, k', false) == Ok && !(k <= k' && k != []) && !(k' <= k)
  {
    var m' := m[k := v];
    if FileAbove(m', k') {
      var j :| 0 < j < |k'| && k'[..j] in m';
      assert k'[..j] == k ==> k <= k';
    }
    if FileAbove(m, k') {
      var j :| 0 < j < |k'| && k'[..j] in m;
      assert k'[..j] in m';
    }
    if HasBelow(m', k') {
      var l :| l in m' && |k'| < |l| && k' <= l;
    }
    if HasBelow(m, k') {
      var l :| l in m && |k'| < |l| && k' <= l;
      assert l in m';
    }
    if k <= k' && k != [] { assert k'[..|k|] == k; }
    if k' <= k { assert k in m'; }
  }

  // Two successful Sets of different paths can be swapped: both still succeed, and the trees
  // are the same up to the case of their names.
  lemma SetsCommute(n: Node, p: seq<string>, v: string, q: seq<string>, w: string)
    requires Canonical(n) && FoldAll(p) != FoldAll(q)
    requires SetNode(n, p, false, v).0 == Ok
    requires SetNode(SetNode(n, p, false, v).1, q, false, w).0 == Ok
    ensures SetNode(n, q, false, w).0 == Ok
    ensures SetNode(SetNode(n, q, false, w).1, p, false, v).0 == Ok
    ensures FoldNames(SetNode(SetNode(n, q, false, w).1, p, false, v).1) ==
            FoldNames(SetNode(SetNode(n, p, false, v).1, q, false, w).1)
  {
    var k, l, m := FoldAll(p), FoldAll(q), Contents(n);
    SetIsCanonical(n, p, v);
    var np := SetNode(n, p, false, v).1;
    SetIsCanonical(np, q, w);
    StatusAfterUpdate(m, k, Stored(v), l);
    SetStatusIsDecidedByMap(n, q, false, w);
    SetIsCanonical(n, q, w);
    var nq := SetNode(n, q, false, w).1;
    StatusAfterUpdate(m, l, Stored(w), k);
    SetStatusIsDecidedByMap(nq, p, false, v);
    SetIsCanonical(nq, p, v);
    UpdatesCommute(m, k, Stored(v), l, Stored(w));
    MapDeterminesTree(SetNode(nq, p, false, v).1, SetNode(np, q, false, w).1);
  }

  lemma SetIsCanonical(n: Node, parts: seq<string>, v: string)
    requires Canonical(n) && SetNode(n, parts, false, v).0 == Ok
    ensures var n' := SetNode(n, parts, false, v).1;
      Canonical(n') && Contents(n') == Contents(n)[FoldAll(parts) := Stored(v)]
    ensures parts != [] && SetStatus(Contents(n), FoldAll(parts), false) == Ok
  {
    SetKeepsSorted(n, parts, false, v);
    SetKeepsPruned(n, parts, v);
    SetUpdatesOneKey(n, parts, false, v);
    SetStatusIsDecidedByMap(n, parts, false, v);
  }

  lemma PutBackInserted(kids: seq<Node>, i: nat, x: Node, y: Node)
    requires i <= |kids|
    ensures Remove(Insert(kids, i, x)[i := y], i) == kids
  {
  }

  // Delete takes out of a child what Set just put in.
  lemma DeleteKidUndoesSetKid(kid: Node, parts: seq<string>, v: string)
    requires Sorted(kid) && Pruned(kid) && parts != []
    requires |parts| > 1 ==> kid.Dir? && FoldAll(parts)[1..] !in Contents(kid)
    requires SetKid(kid, parts, false, v).0 == Ok
    ensures var x := SetKid(kid, parts, false, v).1;
      && (|parts| > 1 ==> x.Dir? && NoFileOnTheWay(x, parts[1..], false))
      && DeleteKid(x, parts, false) == (Ok, if kid.Dir? && kid.kids != [] then Some(kid) else None)
    decreases |parts|, 0
  {
    if |parts| > 1 {
      assert FoldAll(parts)[1..] == FoldAll(parts[1..]);
      DeleteUndoesSet(kid, parts[1..], v);
    }
  }

  // Delete undoes the Set of a fresh path, to the identical tree.
  lemma {:induction false} DeleteUndoesSet(n: Node, parts: seq<string>, v: string)
    requires Canonical(n) && FoldAll(parts) !in Contents(n)
    requires SetNode(n, parts, false, v).0 == Ok
    ensures var n' := SetNode(n, parts, false, v).1;
      NoFileOnTheWay(n', parts, false) && DeleteNode(n', parts, false) == (Ok, n)
    decreases |parts|, 1
  {
    hide Contents, Fold;
    var isDir := |parts| > 1;
    var i, kid := NextKid(n, parts, v);
    var n', x := SetNode(n, parts, false, v).1, SetKid(kid, parts, false, v).1;
    if !Hit(n.kids, Fold(parts[0])) && isDir {
      MissingNodeHoldsNothing(parts[0], isDir, FoldAll(parts)[1..]);
    }
    DeleteKidUndoesSetKid(kid, parts, v);
    if Hit(n.kids, Fold(parts[0])) {
      assert n'.kids[i := kid] == n.kids;
    } else {
      PutBackInserted(n.kids, i, kid, x);
    }
  }

  lemma NextKid(n: Node, parts: seq<string>, v: string) returns (i: nat, kid: Node)
    requires Canonical(n) && FoldAll(parts) !in Contents(n)
    requires SetNode(n, parts, false, v).0 == Ok
    ensures parts != []
    ensures var f, isDir, n' := Fold(parts[0]), |parts| > 1, SetNode(n, parts, false, v).1;
      && i == Slot(n.kids, f) <= |n.kids|
      && Hit(n'.kids, f) && Slot(n'.kids, f) == i
      && n'.kids[i] == SetKid(kid, parts, false, v).1
      && SetKid(kid, parts, false, v).0 == Ok
      && Sorted(kid) && Pruned(kid) && (isDir ==> kid.Dir?)
      && (if Hit(n.kids, f) then
            kid == n.kids[i] && kid.Dir? && kid.kids != [] && n'.kids == n.kids[i := n'.kids[i]]
            && FoldAll(parts)[1..] !in Contents(kid)
          else
            kid == MissingNode(parts[0], isDir) && n'.kids == Insert(n.kids, i, kid)[i := n'.kids[i]])
  {
    var f, isDir := Fold(parts[0]), |parts| > 1;
    i := Slot(n.kids, f);
    kid := WithKid(n.kids, parts[0], isDir)[i];
    SetKidAt(n, parts, false, v, f);
    SlotOfKid(SetNode(n, parts, false, v).1.kids, i);
    if Hit(n.kids, f) { FreshPathStaysFresh(n, parts, v); }
  }

  lemma FreshPathStaysFresh(n: Node, parts: seq<string>, v: string)
    requires Canonical(n) && parts != [] && FoldAll(parts) !in Contents(n)
    requires SetNode(n, parts, false, v).0 == Ok && Hit(n.kids, Fold(parts[0]))
    ensures var kid := n.kids[Slot(n.kids, Fold(parts[0]))];
      kid.Dir? && kid.kids != [] && FoldAll(parts)[1..] !in Contents(kid)
  {
    LookupDir(n, FoldAll(parts));
  }

  // ----- whole runs

  datatype Op =
    | SetOp(path: string, value: string)
    | DeleteOp(path: string)

  function KeyOf(path: string): Key { FoldAll(Parts(path)) }

  // What the map says about a path that Delete may be given: it does not run through a file.
  lemma {:induction false} NoFileOnTheWayIsDecidedByMap(n: Node, parts: seq<string>, slash: bool)
    requires Canonical(n)
    ensures NoFileOnTheWay(n, parts, slash) <==>
      !FileAbove(Contents(n), FoldAll(parts)) && !(slash && parts != [] && FoldAll(parts) in Contents(n))
    decreases |parts|
  {
    hide Contents;
    if parts == [] { return; }
    var k := FoldAll(parts);
    OneNameStatus(n, k[0]);
    DirMapsNoEmptyKey(n);
    if |parts| == 1 {
      assert k == [k[0]];
      if Hit(n.kids, k[0]) { assert parts[1..] == []; }
    } else {
      SetStatusBelow(Contents(n), k, slash);
      FileAboveStrip(Contents(n), k);
      ChildContents(n, k[0]);
      assert k[1..] == FoldAll(parts[1..]) && k == [k[0]] + k[1..];
      if Hit(n.kids, k[0]) && n.kids[Slot(n.kids, k[0])].Dir? {
        NoFileOnTheWayIsDecidedByMap(n.kids[Slot(n.kids, k[0])], parts[1..], slash);
      }
    }
  }

  ghost predicate Admissible(m: map<Key, string>, op: Op) {
    match op
    case SetOp(path, _) => !EndsInSlash(path) || SlashIsHarmless(m, KeyOf(path))
    case DeleteOp(path) =>
      Parts(path) == [] || (!FileAbove(m, KeyOf(path)) && !(EndsInSlash(path) && KeyOf(path) in m))
  }

  // The admissible operations are exactly the Deletes that no file is in the way of, and the Sets without a trailing
  // slash or with one that leaves the tree as it is.
  lemma AdmissibleExactly(n: Node, op: Op)
    requires Canonical(n)
    ensures op.SetOp? ==>
      (Admissible(Contents(n), op) <==>
        !EndsInSlash(op.path) || SetNode(n, Parts(op.path), true, op.value).1 == n)
    ensures op.DeleteOp? ==>
      (Admissible(Contents(n), op) <==> NoFileOnTheWay(n, Parts(op.path), EndsInSlash(op.path)))
  {
    var parts, slash := Parts(op.path), EndsInSlash(op.path);
    if op.DeleteOp? { NoFileOnTheWayIsDecidedByMap(n, parts, slash); }
    else if slash { SlashKeepsTreeExactly(n, parts, op.value); }
  }

  // One operation on the finite map.
  ghost function StepMap(m: map<Key, string>, op: Op): (Status, map<Key, string>) {
    match op
    case SetOp(path, v) =>
      var s := SetStatus(m, KeyOf(path), EndsInSlash(path));
      (s, if s == Ok then m[KeyOf(path) := if |v| <= 255 then v else v[..255]] else m)
    case DeleteOp(path) =>
      var s := DeleteStatus(m, KeyOf(path), EndsInSlash(path));
      (s, if s == Ok then map k | k in m && !(KeyOf(path) <= k) :: m[k] else m)
  }

  // The same operation on the tree.
  function StepTree(n: Node, op: Op): (r: (Status, Node))
    requires n.Dir?
    requires op.DeleteOp? ==> NoFileOnTheWay(n, Parts(op.path), EndsInSlash(op.path))
    ensures r.1.Dir? && r.1.name == n.name
  {
    match op
    case SetOp(path, v) => SetNode(n, Parts(path), EndsInSlash(path), v)
    case DeleteOp(path) => DeleteNode(n, Parts(path), EndsInSlash(path))
  }

  // A successful Set stores the value as it was given, up to 255 characters of it, and a Get of the path returns it.
  lemma GetAfterSet(n: Node, parts: seq<string>, v: string)
    requires n.Dir? && Sorted(n) && SetNode(n, parts, false, v).0 == Ok
    ensures GetNode(SetNode(n, parts, false, v).1, parts, false) == Some(if |v| <= 255 then v else v[..255])
  {
    SetUpdatesOneKey(n, parts, false, v);
    SetKeepsSorted(n, parts, false, v);
    GetIsLookup(SetNode(n, parts, false, v).1, parts, false);
  }

  // Each admissible operation does on the tree what it does on the map, with the same result code.
  lemma StepRefinesMap(n: Node, op: Op)
    requires Canonical(n) && Admissible(Contents(n), op)
    ensures op.DeleteOp? ==> NoFileOnTheWay(n, Parts(op.path), EndsInSlash(op.path))
    ensures var r := StepTree(n, op); Canonical(r.1) && (r.0, Contents(r.1)) == StepMap(Contents(n), op)
  {
    var parts, slash := Parts(op.path), EndsInSlash(op.path);
    if op.SetOp? {
      SetUpdatesOneKey(n, parts, slash, op.value);
      SetStatusIsDecidedByMap(n, parts, slash, op.value);
      SetKeepsSorted(n, parts, slash, op.value);
      if slash { SlashKeepsTreeExactly(n, parts, op.value); }
      else if parts != [] { SetKeepsPruned(n, parts, op.value); }
    } else {
      NoFileOnTheWayIsDecidedByMap(n, parts, slash);
      DeleteKeepsSorted(n, parts, slash);
      DeleteKeepsPruned(n, parts, slash);
      DeleteRemovesSubtree(n, parts, slash);
      DeleteStatusIsDecidedByMap(n, parts, slash);
    }
  }

  ghost predicate AdmissibleRun(m: map<Key, string>, ops: seq<Op>)
    decreases ops
  {
    ops == [] || (Admissible(m, ops[0]) && AdmissibleRun(StepMap(m, ops[0]).1, ops[1..]))
  }

  // The result codes and the final map of a run on the finite map.
  ghost function RunMap(m: map<Key, string>, ops: seq<Op>): (seq<Status>, map<Key, string>)
    decreases ops
  {
    if ops == [] then ([], m)
    else
      var s := StepMap(m, ops[0]);
      var r := RunMap(s.1, ops[1..]);
      ([s.0] + r.0, r.1)
  }

  // A run on the tree: over every admissible run it answers as the finite map does.
  ghost function RunTree(n: Node, ops: seq<Op>): (r: (seq<Status>, Node))
    requires Canonical(n) && AdmissibleRun(Contents(n), ops)
    ensures Canonical(r.1) && r.1.name == n.name
    ensures (r.0, Contents(r.1)) == RunMap(Contents(n), ops)
    decreases ops
  {
    if ops == [] then ([], n)
    else
      StepRefinesMap(n, ops[0]);
      var s := StepTree(n, ops[0]);
      var r := RunTree(s.1, ops[1..]);
      ([s.0] + r.0, r.1)
  }

  // What Create makes.
  const EMPTY: Node := Dir("", [])

  lemma CreateIsEmpty()
    ensures Canonical(EMPTY) && Contents(EMPTY) == map[]
  {
  }

  // What a freshly created filemap answers after any run.
  lemma GetAfterRun(ops: seq<Op>, path: string)
    requires AdmissibleRun(Contents(EMPTY), ops)
    ensures var m := RunMap(map[], ops).1;
      GetNode(RunTree(EMPTY, ops).1, Parts(path), EndsInSlash(path)) ==
        if !EndsInSlash(path) && KeyOf(path) in m then Some(m[KeyOf(path)]) else None
  {
    CreateIsEmpty();
    GetIsLookup(RunTree(EMPTY, ops).1, Parts(path), EndsInSlash(path));
  }

  // Two runs that end with the same map end with the same tree, up to the case of names.
  lemma RunsWithSameMapBuildSameTree(ops: seq<Op>, ops': seq<Op>)
    requires AdmissibleRun(Contents(EMPTY), ops) && AdmissibleRun(Contents(EMPTY), ops')
    requires RunMap(map[], ops).1 == RunMap(map[], ops').1
    ensures FoldNames(RunTree(EMPTY, ops).1) == FoldNames(RunTree(EMPTY, ops').1)
  {
    CreateIsEmpty();
    MapDeterminesTree(RunTree(EMPTY, ops).1, RunTree(EMPTY, ops').1);
  }
}
