// How names and paths are spelled: as they were first given.
module FileTreeSpelling {
  import opened CTypes
  import opened CaseFold
  import opened FileTree
  import opened FileTreeMap
  import opened FileTreeCanon
  import opened FileTreeList

  // The stored names along a key, as far as the tree goes.
  function NamesAlong(n: Node, k: Key): (names: seq<string>)
    ensures |names| <= |k|
    decreases |k|
  {
    if k == [] || n.Leaf? || !Hit(n.kids, k[0]) then []
    else
      var kid := n.kids[Slot(n.kids, k[0])];
      [kid.name] + NamesAlong(kid, k[1..])
  }

  // The names of a path with a slash in front of each.
  function Joined(names: seq<string>): string {
    if names == [] then "" else "/" + names[0] + Joined(names[1..])
  }

  lemma {:induction false} JoinedTogether(a: seq<string>, b: seq<string>)
    ensures Joined(a + b) == Joined(a) + Joined(b)
  {
    if a == [] {
      assert a + b == b;
    } else {
      assert (a + b)[1..] == a[1..] + b;
      JoinedTogether(a[1..], b);
    }
  }

  // ----- List

  // A key of a matching file, and the text that spells it behind the names that lead to n.
  ghost predicate Spells(text: string, base: seq<string>, n: Node, v: string, k: Key) {
    k in Matching(n, v) && |NamesAlong(n, k)| == |k| && text == Joined(base + NamesAlong(n, k))
  }

  lemma OneMoreName(base: seq<string>, name: string)
    ensures Joined(base + [name]) == Joined(base) + "/" + name
  {
    JoinedTogether(base, [name]);
    assert Joined([name]) == "/" + name + Joined([]);
  }

  lemma {:induction false} NodeSpells(n: Node, v: string, prefix: string, base: seq<string>, i: nat) returns (k: Key)
    requires Sorted(n) && i < |ListNode(n, v, prefix)| && prefix == Joined(base) + "/"
    ensures Spells(ListNode(n, v, prefix)[i], base + [n.name], n, v, k)
    decreases n, if n.Dir? then |n.kids| + 1 else 0
  {
    hide Joined, Fold;
    OneMoreName(base, n.name);
    if n.Leaf? {
      k := [];
      assert base + [n.name] + NamesAlong(n, k) == base + [n.name];
    } else {
      assert prefix + n.name + "/" == Joined(base + [n.name]) + "/";
      k := KidsSpell(n, |n.kids|, v, prefix + n.name + "/", base + [n.name], i);
    }
  }

  lemma {:induction false} KidsSpell(n: Node, count: nat, v: string, prefix: string, base: seq<string>, i: nat)
    returns (k: Key)
    requires n.Dir? && Sorted(n) && count <= |n.kids| && prefix == Joined(base) + "/"
    requires i < |ListKids(n, count, v, prefix)|
    ensures Spells(ListKids(n, count, v, prefix)[i], base, n, v, k)
    decreases n, count
  {
    hide Spells, ListNode;
    var before := ListKids(n, count - 1, v, prefix);
    if i < |before| {
      k := KidsSpell(n, count - 1, v, prefix, base, i);
    } else {
      var kid := n.kids[count - 1];
      k := NodeSpells(kid, v, prefix, base, i - |before|);
      SpellsThroughKid(ListNode(kid, v, prefix)[i - |before|], base, n, count - 1, v, k);
      k := [FoldedName(kid)] + k;
    }
  }

  lemma SpellsThroughKid(text: string, base: seq<string>, n: Node, i: nat, v: string, k: Key)
    requires n.Dir? && Sorted(n) && i < |n.kids| && Spells(text, base + [n.kids[i].name], n.kids[i], v, k)
    ensures Spells(text, base, n, v, [FoldedName(n.kids[i])] + k)
  {
    var kid := n.kids[i];
    var k' := [FoldedName(kid)] + k;
    SlotOfKid(n.kids, i);
    LookupDir(n, k');
    assert k'[1..] == k;
    assert base + [kid.name] + NamesAlong(kid, k) == base + NamesAlong(n, k');
  }

  // Every listed path is spelled with the names as they are stored, a single slash in front of each.
  lemma ListSpells(root: Node, v: string, i: nat) returns (k: Key)
    requires root.Dir? && root.name == "" && Sorted(root) && i < |ListNode(root, v, "")|
    ensures k in Matching(root, v) && |NamesAlong(root, k)| == |k|
    ensures ListNode(root, v, "")[i] == Joined(NamesAlong(root, k))
  {
    assert "" + root.name + "/" == Joined([]) + "/";
    k := KidsSpell(root, |root.kids|, v, "/", [], i);
    assert [] + NamesAlong(root, k) == NamesAlong(root, k);
  }

  // ----- Set

  // One level of a Set: the child of the first name, as it was or new, and what becomes of it.
  lemma SetStepSpells(n: Node, parts: seq<string>, v: string) returns (kid: Node)
    requires n.Dir? && Sorted(n) && parts != []
    ensures Sorted(kid)
    ensures var k, r := FoldAll(parts), SetNode(n, parts, false, v);
      var x := SetKid(kid, parts, false, v);
      && r.0 == x.0 && (r.0 == Ok && |parts| > 1 ==> kid.Dir? && x == SetNode(kid, parts[1..], false, v))
      && NamesAlong(r.1, k) == [kid.name] + NamesAlong(x.1, FoldAll(parts[1..]))
      && if Hit(n.kids, k[0]) then NamesAlong(n, k) == [kid.name] + NamesAlong(kid, FoldAll(parts[1..]))
         else NamesAlong(n, k) == [] && kid == MissingNode(parts[0], |parts| > 1)
  {
    hide Less, MissingNode;
    var f := Fold(parts[0]);
    SetKidAt(n, parts, false, v, f);
    kid := WithKid(n.kids, parts[0], |parts| > 1)[Slot(n.kids, f)];
    assert FoldAll(parts)[1..] == FoldAll(parts[1..]) && FoldAll(parts)[0] == f;
    assert Sorted(kid) by { MissingIsSorted(parts[0], |parts| > 1); }
  }

  lemma MissingIsSorted(part: string, isDir: bool)
    ensures Sorted(MissingNode(part, isDir))
  {
  }

  lemma NothingAlongMissing(part: string, isDir: bool, k: Key)
    ensures MissingNode(part, isDir).name == part && NamesAlong(MissingNode(part, isDir), k) == []
  {
  }

  // A successful Set keeps the names that are there, and adds the others as they are given.
  lemma {:induction false} SetSpells(n: Node, parts: seq<string>, v: string)
    requires n.Dir? && Sorted(n) && SetNode(n, parts, false, v).0 == Ok
    ensures var before, after := NamesAlong(n, FoldAll(parts)), NamesAlong(SetNode(n, parts, false, v).1, FoldAll(parts));
      after == before + parts[|before|..]
    decreases |parts|
  {
    hide NamesAlong, SetNode, SetKid, Sorted, Hit, MissingNode, FoldAll;
    SetOfNothing(n, v);
    var kid := SetStepSpells(n, parts, v);
    var x := SetKid(kid, parts, false, v).1;
    var below, above := NamesAlong(kid, FoldAll(parts[1..])), NamesAlong(x, FoldAll(parts[1..]));
    NothingAlongMissing(parts[0], |parts| > 1, FoldAll(parts[1..]));
    if |parts| > 1 {
      SetSpells(kid, parts[1..], v);
    } else {
      assert |above| <= |FoldAll(parts[1..])| == 0 && |below| == 0;
    }
    OneLevel(kid.name, below, above, parts);
  }

  lemma OneLevel(name: string, below: seq<string>, above: seq<string>, parts: seq<string>)
    requires parts != [] && |below| < |parts| && above == below + parts[1..][|below|..]
    ensures [name] + above == [name] + below + parts[|[name] + below|..]
    ensures below == [] ==> [parts[0]] + above == parts
  {
  }

  lemma SetOfNothing(n: Node, v: string)
    requires n.Dir?
    ensures SetNode(n, [], false, v).0 != Ok
  {
  }
}
