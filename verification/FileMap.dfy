// The filemap tree as the C code keeps it: nodes on the heap, updated in place
// (src/pextlib1.0/filemap.c).
module FileMap {
  import opened CTypes
  import opened CaseFold
  import opened FileTree
  import opened FileTreeList
  import opened FileTreeCanon

  // ----- one path element at a time

  function FirstName(path: string): string
    requires SkipSlashes(path) != []
  {
    SkipSlashes(path)[..PartLength(SkipSlashes(path))]
  }

  // Whether a '/' follows the first name.
  predicate SlashFollows(path: string)
    requires SkipSlashes(path) != []
  {
    PartLength(SkipSlashes(path)) < |SkipSlashes(path)|
  }

  function AfterFirstName(path: string): (r: string)
    requires SkipSlashes(path) != [] && SlashFollows(path)
    ensures |r| < |path|
  {
    SkipSlashes(path)[PartLength(SkipSlashes(path))+1..]
  }

  lemma {:induction false} SkippedIsSuffix(path: string)
    ensures path[|path|-|SkipSlashes(path)|..] == SkipSlashes(path)
  {
    if path != [] && path[0] == '/' { SkippedIsSuffix(path[1..]); }
  }

  lemma {:induction false} OnlySlashes(path: string)
    requires SkipSlashes(path) == []
    ensures forall i :: 0 <= i < |path| ==> path[i] == '/'
  {
    if path != [] {
      OnlySlashes(path[1..]);
      assert path == [path[0]] + path[1..];
    }
  }

  lemma FirstNameIsFirstPart(path: string)
    requires SkipSlashes(path) != []
    ensures Parts(path) == [FirstName(path)] + (if SlashFollows(path) then Parts(AfterFirstName(path)) else [])
  {
  }

  lemma SlashAfterFirstName(path: string)
    requires SkipSlashes(path) != []
    ensures SlashFollows(path) <==> |Parts(path)| > 1 || EndsInSlash(path)
    ensures SlashFollows(path) && Parts(AfterFirstName(path)) != [] ==>
      EndsInSlash(path) == EndsInSlash(AfterFirstName(path))
  {
    hide Parts;
    FirstNameIsFirstPart(path);
    var s := SkipSlashes(path);
    var n := PartLength(s);
    SkippedIsSuffix(path);
    assert s[|s|-1] == path[|path|-1];
    if n == |s| {
      assert s[..n] == s && s[|s|-1] in s;
    } else {
      var r := AfterFirstName(path);
      if r != [] { assert r[|r|-1] == s[|s|-1]; }
      if Parts(r) == [] { NoPartsMeansOnlySlashes(r); }
      if r == [] { NoPartsOfEmpty(); }
    }
  }

  lemma NoPartsMeansOnlySlashes(path: string)
    requires Parts(path) == []
    ensures forall i :: 0 <= i < |path| ==> path[i] == '/'
  {
    OnlySlashes(path);
  }

  lemma NoPartsOfEmpty()
    ensures Parts([]) == []
  {
  }

  // Jump to the first character that is not '/'.
  method SkipToElement(path: string) returns (begin: nat)
    ensures begin <= |path| && path[begin..] == SkipSlashes(path)
  {
    begin := 0;
    while begin < |path| && path[begin] == '/'
      invariant begin <= |path| && SkipSlashes(path[begin..]) == SkipSlashes(path)
    {
      assert path[begin..][1..] == path[begin+1..];
      begin := begin + 1;
    }
  }

  // Find the end of the path element that starts at begin.
  method ElementEnd(path: string, begin: nat) returns (end: nat)
    requires begin <= |path|
    ensures begin <= end <= |path| && end - begin == PartLength(path[begin..])
  {
    end := begin;
    while end < |path| && path[end] != '/'
      invariant begin <= end <= |path|
      invariant PartLength(path[begin..]) == end - begin + PartLength(path[end..])
    {
      assert path[end..][1..] == path[end+1..];
      end := end + 1;
    }
  }

  lemma ElementIsFirstName(path: string, begin: nat, end: nat)
    requires begin <= end <= |path| && path[begin..] == SkipSlashes(path) != []
    requires end - begin == PartLength(path[begin..])
    ensures path[begin..end] == FirstName(path) != [] && (end < |path| <==> SlashFollows(path))
    ensures end < |path| ==> path[end+1..] == AfterFirstName(path)
  {
    assert path[begin..][..end-begin] == path[begin..end];
    assert end < |path| ==> path[begin..][end-begin+1..] == path[end+1..];
  }

  // The sibling comparison: the bounded comparison, then the character after the prefix.
  method CompareName(name: string, rest: string, partLength: nat) returns (result: int)
    requires IsText(name) && IsText(rest) && 0 < partLength <= |rest|
    ensures SignMatches(result, Fold(name), Fold(rest[..partLength]))
  {
    result := StrNCaseCmp(name, rest, partLength);
    var part := rest[..partLength];
    if result == 0 {
      assert |Fold(Take(name, partLength))| == partLength;
      result := CharAt(name, partLength) as int;
      LongerNameComesAfter(name, part);
    } else {
      ShortPrefixDecides(name, part, result);
    }
  }

  lemma LongerNameComesAfter(name: string, part: string)
    requires IsText(name) && |part| <= |name| && Fold(name[..|part|]) == Fold(part)
    ensures SignMatches(CharAt(name, |part|) as int, Fold(name), Fold(part))
  {
    assert Fold(name)[..|part|] == Fold(name[..|part|]) == Fold(part)[..|part|];
    LessAfterCommonPrefix(Fold(name), Fold(part), |part|);
    LessAfterCommonPrefix(Fold(part), Fold(name), |part|);
    if |name| == |part| { assert name[..|part|] == name; }
  }

  lemma ShortPrefixDecides(name: string, part: string, r: int)
    requires r != 0 && SignMatches(r, Fold(Take(name, |part|)), Fold(part))
    ensures SignMatches(r, Fold(name), Fold(part))
  {
    if |part| < |name| {
      var a, b := Fold(name[..|part|]), Fold(part);
      assert Fold(name) == a + Fold(name[|part|..]);
      var tail := Fold(name[|part|..]);
      if Less(a, b) { LessPadded(a, tail, b); } else { LessPadded(b, tail, a); }
      assert SignMatches(r, a + tail, b);
    } else {
      assert Take(name, |part|) == name;
    }
  }

  // Two different strings of one length keep their order when one of them grows at the end.
  lemma {:induction false} LessPadded(a: string, tail: string, b: string)
    requires |a| == |b| && Less(a, b)
    ensures Less(a + tail, b) && Less(a, b + tail) && !Less(b, a + tail) && !Less(b + tail, a)
    ensures a + tail != b && b + tail != a
  {
    assert (a + tail)[1..] == a[1..] + tail && (b + tail)[1..] == b[1..] + tail;
    if a[0] == b[0] { LessPadded(a[1..], tail, b[1..]); }
  }

  lemma NothingToSet(n: Node, path: string, v: string)
    requires n.Dir? && SkipSlashes(path) == []
    ensures SetNode(n, Parts(path), EndsInSlash(path), v) == (IsDirectory, n)
  {
  }

  predicate PartsFit(path: string) {
    forall i :: 0 <= i < |Parts(path)| ==> |Parts(path)[i]| <= NAME_MAX
  }

  lemma NamesFit(path: string)
    requires SkipSlashes(path) != [] && PartsFit(path)
    ensures |FirstName(path)| <= NAME_MAX
    ensures SlashFollows(path) ==> PartsFit(AfterFirstName(path))
  {
    FirstNameIsFirstPart(path);
    assert Parts(path)[0] == FirstName(path);
    if SlashFollows(path) {
      assert forall i :: 0 <= i < |Parts(AfterFirstName(path))| ==> Parts(AfterFirstName(path))[i] == Parts(path)[i+1];
    }
  }

  // Set and Delete said by the first element of the path and what follows it.
  lemma SetStep(n: Node, path: string, v: string)
    requires n.Dir? && SkipSlashes(path) != []
    ensures var part, isDir := FirstName(path), SlashFollows(path);
      var i, kids := Slot(n.kids, Fold(part)), WithKid(n.kids, part, isDir);
      SetNode(n, Parts(path), EndsInSlash(path), v) ==
        if isDir then
          if kids[i].Leaf? then (NotDirectory, Dir(n.name, kids))
          else
            var r := SetNode(kids[i], Parts(AfterFirstName(path)), EndsInSlash(AfterFirstName(path)), v);
            (r.0, Dir(n.name, kids[i := r.1]))
        else if kids[i].Dir? then (IsDirectory, Dir(n.name, kids))
        else (Ok, Dir(n.name, kids[i := Leaf(kids[i].name, Stored(v))]))
  {
    hide Parts, Slot, SkipSlashes;
    FirstNameIsFirstPart(path);
    SlashAfterFirstName(path);
    var part, isDir := FirstName(path), SlashFollows(path);
    var i, kids := Slot(n.kids, Fold(part)), WithKid(n.kids, part, isDir);
    assert Parts(path)[1..] == if isDir then Parts(AfterFirstName(path)) else [];
    assert kids[i := kids[i]] == kids;
    if isDir && kids[i].Dir? && Parts(AfterFirstName(path)) == [] {
      assert SetNode(kids[i], [], EndsInSlash(path), v) == SetNode(kids[i], [], EndsInSlash(AfterFirstName(path)), v);
    }
  }

  lemma GetStep(n: Node, path: string)
    requires n.Dir? && SkipSlashes(path) != []
    ensures var f, isDir := Fold(FirstName(path)), SlashFollows(path);
      GetNode(n, Parts(path), EndsInSlash(path)) ==
        if !Hit(n.kids, f) then None
        else
          var kid := n.kids[Slot(n.kids, f)];
          if isDir then
            if kid.Leaf? then None else GetNode(kid, Parts(AfterFirstName(path)), EndsInSlash(AfterFirstName(path)))
          else if kid.Dir? then None else Some(kid.value)
  {
    hide Parts, Slot, SkipSlashes;
    FirstNameIsFirstPart(path);
    SlashAfterFirstName(path);
    assert Parts(path)[1..] == if SlashFollows(path) then Parts(AfterFirstName(path)) else [];
  }

  lemma NothingToGet(n: Node, path: string)
    requires n.Dir? && SkipSlashes(path) == []
    ensures GetNode(n, Parts(path), EndsInSlash(path)) == None
  {
  }

  predicate MayDelete(n: Node, path: string) {
    n.Dir? && NoFileOnTheWay(n, Parts(path), EndsInSlash(path))
  }

  function DeletePath(n: Node, path: string): (Status, Node)
    requires MayDelete(n, path)
  {
    DeleteNode(n, Parts(path), EndsInSlash(path))
  }

  lemma NothingToDelete(n: Node, path: string)
    requires MayDelete(n, path) && SkipSlashes(path) == []
    ensures DeletePath(n, path) == (IsDirectory, n)
  {
  }

  lemma DeleteStep(n: Node, path: string)
    requires MayDelete(n, path) && SkipSlashes(path) != []
    ensures var f, isDir := Fold(FirstName(path)), SlashFollows(path);
      if !Hit(n.kids, f) then DeletePath(n, path) == (NotFound, n)
      else
        var i := Slot(n.kids, f);
        if isDir then
          && MayDelete(n.kids[i], AfterFirstName(path))
          && var r := DeletePath(n.kids[i], AfterFirstName(path));
          DeletePath(n, path) == (r.0, Dir(n.name, if r.1.kids == [] then Remove(n.kids, i) else n.kids[i := r.1]))
        else DeletePath(n, path) == (Ok, Dir(n.name, Remove(n.kids, i)))
  {
    hide Parts, Slot, SkipSlashes;
    FirstNameIsFirstPart(path);
    SlashAfterFirstName(path);
    assert Parts(path)[1..] == if SlashFollows(path) then Parts(AfterFirstName(path)) else [];
    var f, rest := Fold(FirstName(path)), if SlashFollows(path) then AfterFirstName(path) else [];
    if Hit(n.kids, f) {
      var kid := n.kids[Slot(n.kids, f)];
      if SlashFollows(path) {
        if Parts(rest) == [] {
          assert DeleteNode(kid, [], EndsInSlash(path)) == DeleteNode(kid, [], EndsInSlash(rest));
        }
        var r := DeletePath(kid, rest);
        assert DeleteNode(kid, Parts(path)[1..], EndsInSlash(path)) == r;
        assert DeleteKid(kid, Parts(path), EndsInSlash(path)) == (r.0, if r.1.kids == [] then None else Some(r.1));
      } else {
        assert DeleteKid(kid, Parts(path), EndsInSlash(path)) == (Ok, None);
      }
    }
  }

  lemma RemoveDistinct<T>(s: seq<T>, i: nat)
    requires Distinct(s) && i < |s|
    ensures var t := s[..i] + s[i+1..];
      && Distinct(t) && (forall y :: y in t ==> y in s)
      && (forall j :: 0 <= j < |t| ==> t[j] == if j < i then s[j] else s[j+1])
  {
    var t := s[..i] + s[i+1..];
    assert forall j :: 0 <= j < |t| ==> t[j] == if j < i then s[j] else s[j+1];
  }

  // ----- nodes on the heap

  ghost predicate Distinct<T>(s: seq<T>) {
    forall i, j :: 0 <= i < j < |s| ==> s[i] != s[j]
  }

  lemma InsertDistinct<T>(s: seq<T>, i: nat, x: T)
    requires Distinct(s) && i <= |s| && x !in s
    ensures var t := s[..i] + [x] + s[i..];
      && Distinct(t) && (forall y :: y in t <==> y in s || y == x)
      && (forall j :: 0 <= j < |t| ==> t[j] == if j < i then s[j] else if j == i then x else s[j-1])
  {
    var t := s[..i] + [x] + s[i..];
    assert forall y :: y in t <==> y in s[..i] || y == x || y in s[i..];
    assert s == s[..i] + s[i..];
    assert forall j :: 0 <= j < |t| ==> t[j] == if j < i then s[j] else if j == i then x else s[j-1];
  }

  // SHeader with SNode or SLeaf behind it.
  class Entry {
    var isLeaf: bool
    const name: string
    var value: string
    var kids: seq<Entry>
    // The entries at and below this one, and the tree they stand for.
    ghost var repr: set<Entry>
    ghost var tree: Node

    ghost predicate Valid()
      reads this, repr
      decreases repr
    {
      && this in repr && IsText(name) && |name| <= NAME_MAX
      && (isLeaf ==> kids == [] && tree == Leaf(name, value) && IsText(value))
      && (!isLeaf ==> tree.Dir? && tree.name == name && |tree.kids| == |kids|)
      && Distinct(kids)
      && (forall k :: k in kids ==> k in repr && k.repr <= repr - {this} && k.Valid())
      && (forall k, l :: k in kids && l in kids && k != l ==> k.repr !! l.repr)
      && (forall i :: 0 <= i < |kids| && !isLeaf ==> tree.kids[i] == kids[i].tree)
    }

    constructor (name: string, isLeaf: bool)
      requires IsText(name) && |name| <= NAME_MAX
      ensures Valid() && repr == {this} && tree == MissingNode(name, !isLeaf) && this.isLeaf == isLeaf
    {
      this.name, this.isLeaf, value, kids, repr := name, isLeaf, [], [], {this};
      tree := MissingNode(name, !isLeaf);
    }

    // The scan over the siblings.
    method FindKid(rest: string, partLength: nat) returns (index: nat, found: bool)
      requires Valid() && !isLeaf && IsText(rest) && 0 < partLength <= |rest|
      ensures var f := Fold(rest[..partLength]);
        index == Slot(tree.kids, f) && found == Hit(tree.kids, f) && index <= |kids| && (found ==> index < |kids|)
    {
      ghost var f := Fold(rest[..partLength]);
      index, found := 0, false;
      while index < |kids|
        invariant index <= |kids|
        invariant forall j :: 0 <= j < index ==> Less(FoldedName(tree.kids[j]), f)
      {
        var kid := kids[index];
        assert kid in kids && kid.Valid() && tree.kids[index].name == kid.name;
        var compare := CompareName(kid.name, rest, partLength);
        if compare == 0 {
          SlotIs(tree.kids, f, index);
          return index, true;
        } else if compare > 0 {
          SlotIs(tree.kids, f, index);
          return;
        }
        index := index + 1;
      }
      SlotIs(tree.kids, f, index);
    }

    // Make sure there is a node for the element: the pointers after it move one place up.
    method AddKid(index: nat, part: string, isDir: bool)
      requires Valid() && !isLeaf && IsText(part) && |part| <= NAME_MAX && index <= |kids|
      modifies this
      ensures Valid() && !isLeaf && fresh(repr - old(repr))
      ensures tree == Dir(name, Insert(old(tree.kids), index, MissingNode(part, isDir)))
      ensures |kids| == old(|kids|) + 1
    {
      var kid := new Entry(part, !isDir);
      InsertDistinct(kids, index, kid);
      kids := kids[..index] + [kid] + kids[index..];
      repr := repr + {kid};
      tree := Dir(name, Insert(tree.kids, index, kid.tree));
    }

    // The entry of the element between begin and end: the one there, or a new one.
    method Locate(path: string, begin: nat, end: nat) returns (index: nat)
      requires Valid() && !isLeaf && IsText(path)
      requires begin < end <= |path| && end - begin <= NAME_MAX
      modifies this
      ensures Valid() && !isLeaf && fresh(repr - old(repr)) && index < |kids|
      ensures var part := path[begin..end];
        index == Slot(old(tree.kids), Fold(part)) && tree == Dir(name, WithKid(old(tree.kids), part, end < |path|))
    {
      var found;
      index, found := FindKid(path[begin..], end - begin);
      assert path[begin..][..end-begin] == path[begin..end];
      if !found {
        AddKid(index, path[begin..end], end < |path|);
      }
    }

    // Set the value of the file at index.
    method SetValue(index: nat, value: string)
      requires Valid() && !isLeaf && index < |kids| && tree.kids[index].Leaf? && IsText(value)
      modifies repr
      ensures Valid() && !isLeaf && repr == old(repr)
      ensures tree == Dir(name, old(tree.kids)[index := Leaf(old(tree.kids[index].name), Stored(value))])
    {
      var kid := kids[index];
      assert kid in kids && kid.tree == tree.kids[index] && kid.isLeaf;
      kid.value := Take(value, NAME_MAX);
      kid.tree := Leaf(kid.name, kid.value);
      tree := Dir(name, tree.kids[index := kid.tree]);
    }

    // Go on in the directory at index.
    method SetBelow(index: nat, rest: string, value: string) returns (status: Status)
      requires Valid() && !isLeaf && index < |kids| && tree.kids[index].Dir?
      requires IsText(rest) && PartsFit(rest) && IsText(value)
      modifies repr
      ensures Valid() && !isLeaf && fresh(repr - old(repr))
      ensures var r := SetNode(old(tree.kids[index]), Parts(rest), EndsInSlash(rest), value);
        status == r.0 && tree == Dir(name, old(tree.kids)[index := r.1])
      decreases |rest|, 1
    {
      hide SetNode;
      var kid := kids[index];
      assert kid in kids && kid.tree == tree.kids[index] && !kid.isLeaf;
      status := kid.Set(rest, value);
      repr := repr + kid.repr;
      tree := Dir(name, tree.kids[index := kid.tree]);
    }

    // Set, by recursion over the elements of the path.
    method Set(path: string, value: string) returns (status: Status)
      requires Valid() && !isLeaf && IsText(path) && PartsFit(path) && IsText(value)
      modifies repr
      ensures Valid() && !isLeaf && fresh(repr - old(repr))
      ensures (status, tree) == SetNode(old(tree), Parts(path), EndsInSlash(path), value)
      decreases |path|, 0
    {
      hide Parts, SetNode, Slot, WithKid, Hit, SkipSlashes, PartLength;
      var begin := SkipToElement(path);
      if begin == |path| {
        NothingToSet(tree, path, value);
        return IsDirectory;
      }
      var end := ElementEnd(path, begin);
      ElementIsFirstName(path, begin, end);
      SetStep(tree, path, value);
      NamesFit(path);
      var index := Locate(path, begin, end);
      var kid := kids[index];
      assert kid in kids && kid.tree == tree.kids[index];
      if end < |path| {
        if kid.isLeaf {
          status := NotDirectory;
        } else {
          status := SetBelow(index, path[end+1..], value);
        }
      } else if !kid.isLeaf {
        status := IsDirectory;
      } else {
        SetValue(index, value);
        status := Ok;
      }
    }
  
    // Get, by recursion over the elements of the path.
    method Get(path: string) returns (result: Option<string>)
      requires Valid() && !isLeaf && IsText(path)
      ensures result == GetNode(tree, Parts(path), EndsInSlash(path))
      decreases |path|
    {
      hide Parts, GetNode, Slot, Hit, SkipSlashes, PartLength;
      result := None;
      var begin := SkipToElement(path);
      if begin == |path| {
        NothingToGet(tree, path);
        return;
      }
      var end := ElementEnd(path, begin);
      ElementIsFirstName(path, begin, end);
      GetStep(tree, path);
      var index, found := FindKid(path[begin..], end - begin);
      assert path[begin..][..end-begin] == path[begin..end];
      if !found {
        return;
      }
      var kid := kids[index];
      assert kid in kids && kid.tree == tree.kids[index];
      if end < |path| {
        if !kid.isLeaf {
          result := kid.Get(path[end+1..]);
        }
      } else if kid.isLeaf {
        result := Some(kid.value);
      }
    }

    // Take the entry at index out: the pointers after it move one place down.
    method DropKid(index: nat)
      requires Valid() && !isLeaf && index < |kids|
      modifies this
      ensures Valid() && !isLeaf && repr == old(repr)
      ensures tree == Dir(name, Remove(old(tree.kids), index))
    {
      RemoveDistinct(kids, index);
      kids := kids[..index] + kids[index+1..];
      tree := Dir(name, Remove(tree.kids, index));
    }

    // Go on in the directory at index, then prune it if it became empty.
    method DeleteBelow(index: nat, rest: string) returns (status: Status)
      requires Valid() && !isLeaf && index < |kids| && IsText(rest)
      requires MayDelete(tree.kids[index], rest)
      modifies repr
      ensures Valid() && !isLeaf && repr == old(repr)
      ensures var r := DeletePath(old(tree.kids[index]), rest);
        status == r.0 &&
        tree == Dir(name, if r.1.kids == [] then Remove(old(tree.kids), index) else old(tree.kids)[index := r.1])
      decreases |rest|, 1
    {
      hide DeletePath, MayDelete, Remove;
      var kid := kids[index];
      assert kid in kids && kid.tree == tree.kids[index] && !kid.isLeaf by { MayDeleteInDirectory(tree.kids[index], rest); }
      status := kid.Delete(rest);
      tree := Dir(name, tree.kids[index := kid.tree]);
      assert Valid();
      if |kid.kids| == 0 {
        RemoveReplaced(old(tree.kids), index, kid.tree);
        DropKid(index);
      }
    }

    // Delete, by recursion over the elements of the path.
    method Delete(path: string) returns (status: Status)
      requires Valid() && !isLeaf && IsText(path) && MayDelete(tree, path)
      modifies repr
      ensures Valid() && !isLeaf && repr == old(repr)
      ensures (status, tree) == DeletePath(old(tree), path)
      decreases |path|, 0
    {
      hide DeletePath, MayDelete, Slot, Hit, SkipSlashes, PartLength, Remove;
      var begin := SkipToElement(path);
      if begin == |path| {
        NothingToDelete(tree, path);
        return IsDirectory;
      }
      var end := ElementEnd(path, begin);
      ElementIsFirstName(path, begin, end);
      DeleteStep(tree, path);
      var index, found := FindKid(path[begin..], end - begin);
      assert path[begin..][..end-begin] == path[begin..end];
      if !found {
        return NotFound;
      }
      if end < |path| {
        status := DeleteBelow(index, path[end+1..]);
      } else {
        DropKid(index);
        status := Ok;
      }
    }

    // ListSubtree: the paths below prefix whose value matches, in order.
    method ListSubtree(match_: string, prefix: string) returns (paths: seq<string>)
      requires Valid() && IsText(match_)
      ensures paths == ListNode(tree, match_, prefix)
      decreases repr
    {
      paths := [];
      if isLeaf {
        var compare := StrCaseCmp(value, match_);
        if compare == 0 {
          paths := [prefix + name];
        }
      } else {
        var path := prefix + name + "/";
        var index := 0;
        while index < |kids|
          invariant index <= |kids| && paths == ListKids(tree, index, match_, path)
        {
          var kid := kids[index];
          assert kid in kids && kid.tree == tree.kids[index];
          var more := kid.ListSubtree(match_, path);
          paths := paths + more;
          index := index + 1;
        }
      }
    }
  }

  lemma MayDeleteInDirectory(n: Node, path: string)
    requires MayDelete(n, path)
    ensures n.Dir?
  {
  }

  lemma RemoveReplaced(kids: seq<Node>, i: nat, n: Node)
    requires i < |kids|
    ensures Remove(kids[i := n], i) == Remove(kids, i)
  {
  }

  lemma {:induction false} SlotIs(kids: seq<Node>, f: string, i: nat)
    requires i <= |kids|
    requires forall j :: 0 <= j < i ==> Less(FoldedName(kids[j]), f)
    requires i < |kids| ==> f == FoldedName(kids[i]) || Less(f, FoldedName(kids[i]))
    ensures Slot(kids, f) == i
  {
    if i < |kids| {
      LessIrreflexive(f);
      if Less(f, FoldedName(kids[i])) { LessAsymmetric(f, FoldedName(kids[i])); }
    }
  }
}
