// The filemap tree refines a finite map from case-folded paths to values.
module FileTreeMap {
  import opened CTypes
  import opened CaseFold
  import opened FileTree

  // ----- sibling arrays behave like maps from folded names to nodes

  function KidAt(kids: seq<Node>, f: string): Option<Node> {
    if Hit(kids, f) then Some(kids[Slot(kids, f)]) else None
  }

  lemma SlotOfKid(kids: seq<Node>, i: nat)
    requires SortedKids(kids) && i < |kids|
    ensures Slot(kids, FoldedName(kids[i])) == i
    ensures KidAt(kids, FoldedName(kids[i])) == Some(kids[i])
  {
    var f := FoldedName(kids[i]);
    LessIrreflexive(f);
    var j := Slot(kids, f);
  }

  lemma SlotSplits(kids: seq<Node>, f: string, j: nat)
    requires SortedKids(kids) && Slot(kids, f) <= j < |kids| && !Hit(kids, f)
    ensures Less(f, FoldedName(kids[j]))
  {
    var i := Slot(kids, f);
    LessTotal(f, FoldedName(kids[i]));
    if i < j { LessTransitive(f, FoldedName(kids[i]), FoldedName(kids[j])); }
  }

  lemma KidsAgree(kids: seq<Node>, kids': seq<Node>, g: string)
    requires SortedKids(kids) && SortedKids(kids')
    requires forall i :: 0 <= i < |kids| && FoldedName(kids[i]) == g ==> kids[i] in kids'
    requires forall i :: 0 <= i < |kids'| && FoldedName(kids'[i]) == g ==> kids'[i] in kids
    ensures KidAt(kids, g) == KidAt(kids', g)
  {
    if Hit(kids, g) {
      var j :| 0 <= j < |kids'| && kids'[j] == kids[Slot(kids, g)];
      SlotOfKid(kids', j);
    } else if Hit(kids', g) {
      var j :| 0 <= j < |kids| && kids[j] == kids'[Slot(kids', g)];
      SlotOfKid(kids, j);
    }
  }

  lemma InsertKeepsSorted(kids: seq<Node>, f: string, x: Node)
    requires SortedKids(kids) && !Hit(kids, f) && FoldedName(x) == f
    ensures SortedKids(Insert(kids, Slot(kids, f), x))
  {
    var i := Slot(kids, f);
    var kids' := Insert(kids, i, x);
    forall p, q | 0 <= p < q < |kids'| ensures Less(FoldedName(kids'[p]), FoldedName(kids'[q])) {
      if p == i { SlotSplits(kids, f, q - 1); }
      else if q != i {
        assert kids'[p] == kids[if p < i then p else p - 1];
        assert kids'[q] == kids[if q < i then q else q - 1];
      }
    }
  }

  lemma InsertKid(kids: seq<Node>, f: string, x: Node, g: string)
    requires SortedKids(kids) && !Hit(kids, f) && FoldedName(x) == f
    ensures var kids' := Insert(kids, Slot(kids, f), x);
      SortedKids(kids') && KidAt(kids', g) == if g == f then Some(x) else KidAt(kids, g)
  {
    hide SortedKids, Slot, KidAt;
    var i := Slot(kids, f);
    var kids' := Insert(kids, i, x);
    InsertKeepsSorted(kids, f, x);
    if g == f {
      assert kids'[i] == x;
      SlotOfKid(kids', i);
    } else {
      forall j | 0 <= j < |kids| ensures kids[j] in kids' {
        assert kids[j] == kids'[if j < i then j else j + 1];
      }
      forall j | 0 <= j < |kids'| && j != i ensures kids'[j] in kids {
        assert kids'[j] == kids[if j < i then j else j - 1];
      }
      KidsAgree(kids, kids', g);
    }
  }

  lemma ReplaceKid(kids: seq<Node>, f: string, x: Node, g: string)
    requires SortedKids(kids) && Hit(kids, f) && FoldedName(x) == f
    ensures var kids' := kids[Slot(kids, f) := x];
      SortedKids(kids') && KidAt(kids', g) == if g == f then Some(x) else KidAt(kids, g)
  {
    var i := Slot(kids, f);
    var kids' := kids[i := x];
    assert SortedKids(kids');
    if g == f {
      SlotOfKid(kids', i);
    } else {
      forall j | 0 <= j < |kids| && j != i ensures kids[j] in kids' && kids'[j] in kids {
        assert kids[j] == kids'[j];
      }
      KidsAgree(kids, kids', g);
    }
  }

  lemma RemoveKeepsSorted(kids: seq<Node>, i: nat)
    requires SortedKids(kids) && i < |kids|
    ensures SortedKids(Remove(kids, i))
  {
  }

  lemma RemovedKidIsGone(kids: seq<Node>, f: string)
    requires SortedKids(kids) && Hit(kids, f)
    ensures KidAt(Remove(kids, Slot(kids, f)), f) == None
  {
    var i := Slot(kids, f);
    LessIrreflexive(f);
    assert forall j :: 0 <= j < |kids| - 1 ==> Remove(kids, i)[j] == kids[if j < i then j else j + 1];
  }

  lemma RemoveKid(kids: seq<Node>, f: string, g: string)
    requires SortedKids(kids) && Hit(kids, f)
    ensures var kids' := Remove(kids, Slot(kids, f));
      SortedKids(kids') && KidAt(kids', g) == if g == f then None else KidAt(kids, g)
  {
    var i := Slot(kids, f);
    var kids' := Remove(kids, i);
    RemoveKeepsSorted(kids, i);
    hide SortedKids;
    if g == f {
      RemovedKidIsGone(kids, f);
    } else {
      forall j | 0 <= j < |kids| && j != i ensures kids[j] in kids' {
        assert kids[j] == kids'[if j < i then j else j - 1];
      }
      KidsAgree(kids, kids', g);
    }
  }

  // ----- the map a tree stands for

  ghost function Prefixed(f: string, m: map<Key, string>): (r: map<Key, string>)
    ensures forall k {:trigger k in r} :: k in r <==> k != [] && k[0] == f && k[1..] in m
    ensures forall k {:trigger r[k]} :: k in r ==> r[k] == m[k[1..]]
  {
    var keys := set k | k in m.Keys :: [f] + k;
    forall k | k != [] && k[0] == f && k[1..] in m ensures k in keys {
      assert k == [f] + k[1..];
    }
    map k | k in keys :: m[k[1..]]
  }

  // The maps of the children, each under its own name.
  ghost function Gather(names: seq<string>, maps: seq<map<Key, string>>): map<Key, string>
    requires |names| == |maps|
  {
    if names == [] then map[] else Prefixed(names[0], maps[0]) + Gather(names[1..], maps[1..])
  }

  lemma {:induction false} GatherAt(names: seq<string>, maps: seq<map<Key, string>>, i: nat, k: Key)
    requires |names| == |maps|
    requires k != [] && i <= |names|
    requires forall j :: 0 <= j < |names| && names[j] == k[0] ==> i == j
    requires i < |names| ==> names[i] == k[0]
    ensures k in Gather(names, maps) <==> i < |names| && k[1..] in maps[i]
    ensures k in Gather(names, maps) ==> Gather(names, maps)[k] == maps[i][k[1..]]
  {
    if names != [] {
      if i == 0 {
        GatherAt(names[1..], maps[1..], |names| - 1, k);
      } else {
        GatherAt(names[1..], maps[1..], i - 1, k);
      }
    }
  }

  lemma {:induction false} GatherHasNoRoot(names: seq<string>, maps: seq<map<Key, string>>)
    requires |names| == |maps|
    ensures [] !in Gather(names, maps)
  {
    if names != [] { GatherHasNoRoot(names[1..], maps[1..]); }
  }

  function FoldedNames(kids: seq<Node>): (r: seq<string>)
    ensures |r| == |kids|
    ensures forall i :: 0 <= i < |r| ==> r[i] == FoldedName(kids[i])
  {
    seq(|kids|, i requires 0 <= i < |kids| => FoldedName(kids[i]))
  }

  // What is stored at and below n, by the folded names that lead there from n.
  ghost function Contents(n: Node): map<Key, string> {
    match n
    case Leaf(_, value) => map[[] := value]
    case Dir(_, kids) => Gather(FoldedNames(kids), seq(|kids|, i requires 0 <= i < |kids| => Contents(kids[i])))
  }

  ghost function Lookup(n: Node, k: Key): Option<string> {
    if k in Contents(n) then Some(Contents(n)[k]) else None
  }

  ghost function LookupBelow(kid: Option<Node>, k: Key): Option<string> {
    if kid.None? || k == [] then None else Lookup(kid.value, k[1..])
  }

  lemma LookupDir(n: Node, k: Key)
    requires n.Dir? && SortedKids(n.kids)
    ensures Lookup(n, k) == if k == [] then None else LookupBelow(KidAt(n.kids, k[0]), k)
  {
    var names, maps := FoldedNames(n.kids), seq(|n.kids|, i requires 0 <= i < |n.kids| => Contents(n.kids[i]));
    assert Contents(n) == Gather(names, maps);
    if k == [] {
      GatherHasNoRoot(names, maps);
    } else {
      var i := if Hit(n.kids, k[0]) then Slot(n.kids, k[0]) else |names|;
      forall j | 0 <= j < |names| && names[j] == k[0] ensures i == j { SlotOfKid(n.kids, j); }
      GatherAt(names, maps, i, k);
    }
  }

  lemma SameLookups(n: Node, m: map<Key, string>)
    requires forall k :: Lookup(n, k) == if k in m then Some(m[k]) else None
    ensures Contents(n) == m
  {
    forall k ensures k in Contents(n) <==> k in m {
      assert Lookup(n, k) == if k in m then Some(m[k]) else None;
    }
    forall k | k in m ensures Contents(n)[k] == m[k] {
      assert Lookup(n, k) == Some(m[k]);
    }
  }

  // ----- Get

  // Get returns what the map holds at the folded path; a path ending in '/' finds nothing.
  lemma {:induction false} GetIsLookup(n: Node, parts: seq<string>, slash: bool)
    requires n.Dir? && Sorted(n)
    ensures GetNode(n, parts, slash) ==
      if slash || FoldAll(parts) !in Contents(n) then None else Some(Contents(n)[FoldAll(parts)])
    decreases |parts|
  {
    var k := FoldAll(parts);
    LookupDir(n, k);
    if parts != [] && Hit(n.kids, k[0]) {
      var kid := n.kids[Slot(n.kids, k[0])];
      assert k[1..] == FoldAll(parts[1..]);
      if kid.Dir? {
        LookupDir(kid, []);
        GetIsLookup(kid, parts[1..], slash);
      }
    }
  }

  // ----- Set

  lemma WithKidAt(kids: seq<Node>, part: string, isDir: bool, g: string)
    requires SortedKids(kids)
    ensures var f, kids' := Fold(part), WithKid(kids, part, isDir);
      && SortedKids(kids') && Hit(kids', f) && Slot(kids', f) == Slot(kids, f)
      && KidAt(kids', g) == if g == f && !Hit(kids, f) then Some(MissingNode(part, isDir)) else KidAt(kids, g)
  {
    var f := Fold(part);
    if !Hit(kids, f) {
      var x := MissingNode(part, isDir);
      InsertKid(kids, f, x, g);
      SlotOfKid(Insert(kids, Slot(kids, f), x), Slot(kids, f));
    }
  }

  lemma MissingNodeHoldsNothing(part: string, isDir: bool, k: Key)
    requires isDir || k != []
    ensures Lookup(MissingNode(part, isDir), k) == None
  {
    if isDir { LookupDir(MissingNode(part, isDir), k); }
  }

  // Set touches one child: the one of the first part, made if it was missing.
  lemma SetKidAt(n: Node, parts: seq<string>, slash: bool, v: string, g: string)
    requires n.Dir? && SortedKids(n.kids) && parts != []
    ensures var f, isDir := Fold(parts[0]), |parts| > 1 || slash;
      var kid := WithKid(n.kids, parts[0], isDir)[Slot(n.kids, f)];
      var kids' := SetNode(n, parts, slash, v).1.kids;
      && kid == (if Hit(n.kids, f) then n.kids[Slot(n.kids, f)] else MissingNode(parts[0], isDir))
      && SortedKids(kids')
      && KidAt(kids', g) == if g == f then Some(SetKid(kid, parts, slash, v).1) else KidAt(n.kids, g)
  {
    var f := Fold(parts[0]);
    var isDir := |parts| > 1 || slash;
    WithKidAt(n.kids, parts[0], isDir, f);
    WithKidAt(n.kids, parts[0], isDir, g);
    var kids := WithKid(n.kids, parts[0], isDir);
    ReplaceKid(kids, f, SetKid(kids[Slot(n.kids, f)], parts, slash, v).1, g);
  }

  lemma {:induction false} SetKeepsSorted(n: Node, parts: seq<string>, slash: bool, v: string)
    requires n.Dir? && Sorted(n)
    ensures Sorted(SetNode(n, parts, slash, v).1)
    decreases |parts|
  {
    if parts != [] {
      SetKidAt(n, parts, slash, v, Fold(parts[0]));
      var kids := WithKid(n.kids, parts[0], |parts| > 1 || slash);
      var kid := kids[Slot(n.kids, Fold(parts[0]))];
      assert forall j :: 0 <= j < |kids| ==> Sorted(kids[j]);
      if (|parts| > 1 || slash) && kid.Dir? { SetKeepsSorted(kid, parts[1..], slash, v); }
    }
  }

  lemma SetKidLookup(kid: Node, parts: seq<string>, slash: bool, v: string, k: Key)
    requires Sorted(kid) && parts != []
    ensures var r := SetKid(kid, parts, slash, v);
      Lookup(r.1, k) == if r.0 == Ok && k == FoldAll(parts)[1..] then Some(Stored(v)) else Lookup(kid, k)
    decreases |parts|, 0
  {
    assert FoldAll(parts)[1..] == FoldAll(parts[1..]);
    if (|parts| > 1 || slash) && kid.Dir? {
      SetLookup(kid, parts[1..], slash, v, k);
    }
  }

  lemma {:induction false} SetLookup(n: Node, parts: seq<string>, slash: bool, v: string, k: Key)
    requires n.Dir? && Sorted(n)
    ensures var r := SetNode(n, parts, slash, v);
      Lookup(r.1, k) == if r.0 == Ok && k == FoldAll(parts) then Some(Stored(v)) else Lookup(n, k)
    decreases |parts|, 1
  {
    if parts == [] { return; }
    LookupDir(n, k);
    SetKidAt(n, parts, slash, v, Fold(parts[0]));
    LookupDir(SetNode(n, parts, slash, v).1, k);
    if k == [] { return; }
    SetKidAt(n, parts, slash, v, k[0]);
    if k[0] == Fold(parts[0]) {
      var isDir := |parts| > 1 || slash;
      var kid := WithKid(n.kids, parts[0], isDir)[Slot(n.kids, k[0])];
      assert k == FoldAll(parts) <==> k[1..] == FoldAll(parts)[1..];
      SetKidLookup(kid, parts, slash, v, k[1..]);
      if isDir || k[1..] != [] { MissingNodeHoldsNothing(parts[0], isDir, k[1..]); }
    }
  }

  // A successful Set changes exactly one key; a failing one changes none.
  lemma SetUpdatesOneKey(n: Node, parts: seq<string>, slash: bool, v: string)
    requires n.Dir? && Sorted(n)
    ensures var r := SetNode(n, parts, slash, v);
      Contents(r.1) ==
        if r.0 == Ok then Contents(n)[FoldAll(parts) := if |v| <= 255 then v else v[..255]] else Contents(n)
  {
    var r := SetNode(n, parts, slash, v);
    forall k ensures Lookup(r.1, k) == if r.0 == Ok && k == FoldAll(parts) then Some(Stored(v)) else Lookup(n, k) {
      SetLookup(n, parts, slash, v, k);
    }
    SameLookups(r.1, if r.0 == Ok then Contents(n)[FoldAll(parts) := Stored(v)] else Contents(n));
  }

  // ----- Delete

  // Delete touches one child.
  lemma DeleteKidAt(n: Node, parts: seq<string>, slash: bool, g: string)
    requires n.Dir? && SortedKids(n.kids) && parts != [] && NoFileOnTheWay(n, parts, slash)
    requires Hit(n.kids, Fold(parts[0]))
    ensures var f := Fold(parts[0]);
      var kids' := DeleteNode(n, parts, slash).1.kids;
      && SortedKids(kids')
      && KidAt(kids', g) ==
         if g == f then DeleteKid(n.kids[Slot(n.kids, f)], parts, slash).1 else KidAt(n.kids, g)
  {
    var f := Fold(parts[0]);
    var r := DeleteKid(n.kids[Slot(n.kids, f)], parts, slash);
    if r.1.None? { RemoveKid(n.kids, f, g); } else { ReplaceKid(n.kids, f, r.1.value, g); }
  }

  lemma {:induction false} DeleteKeepsSorted(n: Node, parts: seq<string>, slash: bool)
    requires n.Dir? && Sorted(n) && NoFileOnTheWay(n, parts, slash)
    ensures Sorted(DeleteNode(n, parts, slash).1)
    decreases |parts|
  {
    if parts == [] || !Hit(n.kids, Fold(parts[0])) { return; }
    DeleteKidAt(n, parts, slash, Fold(parts[0]));
    if |parts| > 1 || slash {
      DeleteKeepsSorted(n.kids[Slot(n.kids, Fold(parts[0]))], parts[1..], slash);
    }
  }

  ghost function LookupIn(n: Option<Node>, k: Key): Option<string> {
    if n.None? then None else Lookup(n.value, k)
  }

  lemma DeleteKidLookup(kid: Node, parts: seq<string>, slash: bool, k: Key)
    requires Sorted(kid) && parts != []
    requires |parts| > 1 || slash ==> kid.Dir? && NoFileOnTheWay(kid, parts[1..], slash)
    ensures var r := DeleteKid(kid, parts, slash);
      LookupIn(r.1, k) == if r.0 == Ok && FoldAll(parts)[1..] <= k then None else Lookup(kid, k)
    decreases |parts|, 0
  {
    assert FoldAll(parts)[1..] == FoldAll(parts[1..]);
    if |parts| > 1 || slash {
      DeleteLookup(kid, parts[1..], slash, k);
      DeleteKeepsSorted(kid, parts[1..], slash);
      LookupDir(DeleteNode(kid, parts[1..], slash).1, k);
    }
  }

  lemma {:induction false} DeleteLookup(n: Node, parts: seq<string>, slash: bool, k: Key)
    requires n.Dir? && Sorted(n) && NoFileOnTheWay(n, parts, slash)
    ensures var r := DeleteNode(n, parts, slash);
      Lookup(r.1, k) == if r.0 == Ok && FoldAll(parts) <= k then None else Lookup(n, k)
    decreases |parts|, 1
  {
    if parts == [] || !Hit(n.kids, Fold(parts[0])) { return; }
    LookupDir(n, k);
    DeleteKidAt(n, parts, slash, Fold(parts[0]));
    LookupDir(DeleteNode(n, parts, slash).1, k);
    if k == [] { return; }
    DeleteKidAt(n, parts, slash, k[0]);
    PrefixOfTail(FoldAll(parts), k);
    if k[0] == Fold(parts[0]) {
      DeleteKidLookup(n.kids[Slot(n.kids, k[0])], parts, slash, k[1..]);
    }
  }

  lemma PrefixOfTail(a: Key, b: Key)
    requires a != [] && b != []
    ensures a <= b <==> a[0] == b[0] && a[1..] <= b[1..]
  {
    if a[0] == b[0] && a[1..] <= b[1..] {
      assert a == [a[0]] + a[1..] && b == [b[0]] + b[1..];
    }
  }

  // A successful Delete removes the path and what is below it; a failing one removes nothing.
  lemma DeleteRemovesSubtree(n: Node, parts: seq<string>, slash: bool)
    requires n.Dir? && Sorted(n) && NoFileOnTheWay(n, parts, slash)
    ensures var r := DeleteNode(n, parts, slash);
      Contents(r.1) ==
        if r.0 == Ok then map k | k in Contents(n) && !(FoldAll(parts) <= k) :: Contents(n)[k] else Contents(n)
  {
    var r := DeleteNode(n, parts, slash);
    forall k ensures Lookup(r.1, k) == if r.0 == Ok && FoldAll(parts) <= k then None else Lookup(n, k) {
      DeleteLookup(n, parts, slash, k);
    }
    SameLookups(r.1, if r.0 == Ok then map k | k in Contents(n) && !(FoldAll(parts) <= k) :: Contents(n)[k] else Contents(n));
  }

  // No mapped path runs through another mapped path.
  lemma {:induction false} KeysArePrefixFree(n: Node, k: Key, k': Key)
    requires Sorted(n) && k in Contents(n) && k' in Contents(n) && k <= k'
    ensures k == k'
    decreases |k|
  {
    if n.Dir? {
      LookupDir(n, k);
      LookupDir(n, k');
      PrefixOfTail(k, k');
      KeysArePrefixFree(n.kids[Slot(n.kids, k[0])], k[1..], k'[1..]);
      assert k == [k[0]] + k[1..] && k' == [k'[0]] + k'[1..];
    }
  }

  lemma LeafMapsEmptyKey(n: Node)
    requires n.Leaf?
    ensures forall k :: k in Contents(n) <==> k == []
  {
  }

  lemma {:induction false} MappedPathHasNoFileOnTheWay(n: Node, parts: seq<string>)
    requires n.Dir? && Sorted(n) && FoldAll(parts) in Contents(n)
    ensures NoFileOnTheWay(n, parts, false)
    ensures DeleteNode(n, parts, false).0 == Ok
    decreases |parts|
  {
    hide Contents;
    LookupDir(n, FoldAll(parts));
    if |parts| > 1 {
      assert FoldAll(parts)[1..] == FoldAll(parts[1..]);
      var kid := n.kids[Slot(n.kids, Fold(parts[0]))];
      if kid.Leaf? {
        LeafMapsEmptyKey(kid);
      }
      MappedPathHasNoFileOnTheWay(kid, parts[1..]);
    }
  }

  // Deleting a mapped path removes exactly that key.
  lemma DeleteOfMappedPath(n: Node, parts: seq<string>)
    requires n.Dir? && Sorted(n) && FoldAll(parts) in Contents(n)
    ensures NoFileOnTheWay(n, parts, false)
    ensures DeleteNode(n, parts, false).0 == Ok
    ensures Contents(DeleteNode(n, parts, false).1) == Contents(n) - {FoldAll(parts)}
  {
    hide Sorted, Contents, DeleteNode, NoFileOnTheWay, FoldAll;
    MappedPathHasNoFileOnTheWay(n, parts);
    DeleteRemovesSubtree(n, parts, false);
    forall k | k in Contents(n) && FoldAll(parts) <= k ensures k == FoldAll(parts) {
      KeysArePrefixFree(n, FoldAll(parts), k);
    }
  }
}
