// The tree behind a filemap (src/pextlib1.0/filemap.c) as a value, and the effect of
// Set, Get, Delete and List on it.
module FileTree {
  import opened CTypes
  import opened CaseFold

  const NAME_MAX := 255

  // SNode and SLeaf.
  datatype Node =
    | Dir(name: string, kids: seq<Node>)
    | Leaf(name: string, value: string)

  // The result codes of Set and Delete: 0, EISDIR, ENOTDIR and kKeyNotFound_Err.
  datatype Status = Ok | IsDirectory | NotDirectory | NotFound

  // ----- paths

  function SkipSlashes(path: string): (r: string)
    ensures |r| <= |path|
    ensures r != [] ==> r[0] != '/'
  {
    if path != [] && path[0] == '/' then SkipSlashes(path[1..]) else path
  }

  function PartLength(path: string): (n: nat)
    ensures n <= |path|
    ensures '/' !in path[..n]
    ensures n < |path| ==> path[n] == '/'
  {
    if path == [] || path[0] == '/' then 0 else 1 + PartLength(path[1..])
  }

  // The names a path is made of; runs of '/' separate them.
  function Parts(path: string): (parts: seq<string>)
    ensures forall i :: 0 <= i < |parts| ==> parts[i] != [] && '/' !in parts[i]
    decreases |path|
  {
    var p := SkipSlashes(path);
    if p == [] then []
    else
      var n := PartLength(p);
      [p[..n]] + (if n < |p| then Parts(p[n+1..]) else [])
  }

  // Whether a '/' follows the last name.
  predicate EndsInSlash(path: string) {
    path != [] && path[|path|-1] == '/'
  }

  // The key of a path: its names, without regard to case.
  type Key = seq<string>

  function FoldAll(parts: seq<string>): (k: Key)
    ensures |k| == |parts|
    ensures forall i :: 0 <= i < |k| ==> k[i] == Fold(parts[i])
  {
    seq(|parts|, i requires 0 <= i < |parts| => Fold(parts[i]))
  }

  // ----- sibling arrays

  function FoldedName(n: Node): string { Fold(n.name) }

  // Where the sibling scan stops: past every name below f.
  function Slot(kids: seq<Node>, f: string): (i: nat)
    ensures i <= |kids|
    ensures forall j :: 0 <= j < i ==> Less(FoldedName(kids[j]), f)
    ensures i < |kids| ==> !Less(FoldedName(kids[i]), f)
  {
    if kids != [] && Less(FoldedName(kids[0]), f) then 1 + Slot(kids[1..], f) else 0
  }

  predicate Hit(kids: seq<Node>, f: string) {
    var i := Slot(kids, f);
    i < |kids| && FoldedName(kids[i]) == f
  }

  function Insert(kids: seq<Node>, i: nat, n: Node): seq<Node>
    requires i <= |kids|
  {
    kids[..i] + [n] + kids[i..]
  }

  function Remove(kids: seq<Node>, i: nat): seq<Node>
    requires i < |kids|
  {
    kids[..i] + kids[i+1..]
  }

  predicate SortedKids(kids: seq<Node>) {
    forall i, j :: 0 <= i < j < |kids| ==> Less(FoldedName(kids[i]), FoldedName(kids[j]))
  }

  // Every sibling array of the tree is strictly sorted.
  predicate Sorted(n: Node) {
    n.Dir? ==> SortedKids(n.kids) && forall i :: 0 <= i < |n.kids| ==> Sorted(n.kids[i])
  }

  // No directory below n is empty.
  predicate Pruned(n: Node) {
    n.Dir? ==> forall i :: 0 <= i < |n.kids| ==> Pruned(n.kids[i]) && (n.kids[i].Dir? ==> n.kids[i].kids != [])
  }

  // ----- operations

  function MissingNode(part: string, isDir: bool): Node {
    if isDir then Dir(part, []) else Leaf(part, [])
  }

  // strncpy into the value field keeps at most NAME_MAX characters.
  function Stored(value: string): (stored: string)
    ensures stored == if |value| <= 255 then value else value[..255]
  {
    Take(value, NAME_MAX)
  }

  // The sibling array with a node for the part: the one there, or a new one in sorted position.
  function WithKid(kids: seq<Node>, part: string, isDir: bool): seq<Node> {
    if Hit(kids, Fold(part)) then kids else Insert(kids, Slot(kids, Fold(part)), MissingNode(part, isDir))
  }

  function SetNode(n: Node, parts: seq<string>, slash: bool, value: string): (r: (Status, Node))
    requires n.Dir?
    ensures r.1.Dir? && r.1.name == n.name
    decreases |parts|, 1
  {
    if parts == [] then (IsDirectory, n)
    else
      var i := Slot(n.kids, Fold(parts[0]));
      var kids := WithKid(n.kids, parts[0], |parts| > 1 || slash);
      var r := SetKid(kids[i], parts, slash, value);
      (r.0, Dir(n.name, kids[i := r.1]))
  }

  // The rest of Set at the node found or made for the first part.
  function SetKid(kid: Node, parts: seq<string>, slash: bool, value: string): (r: (Status, Node))
    requires parts != []
    ensures r.1.name == kid.name
    decreases |parts|, 0
  {
    if |parts| > 1 || slash then
      if kid.Leaf? then (NotDirectory, kid) else SetNode(kid, parts[1..], slash, value)
    else if kid.Dir? then (IsDirectory, kid)
    else (Ok, Leaf(kid.name, Stored(value)))
  }

  function GetNode(n: Node, parts: seq<string>, slash: bool): Option<string>
    requires n.Dir?
    decreases |parts|
  {
    if parts == [] || !Hit(n.kids, Fold(parts[0])) then None
    else
      var kid := n.kids[Slot(n.kids, Fold(parts[0]))];
      if |parts| > 1 || slash then
        if kid.Leaf? then None else GetNode(kid, parts[1..], slash)
      else if kid.Dir? then None
      else Some(kid.value)
  }

  // The C code casts the node a '/' follows to a directory without looking at its kind;
  // a path that leads through a file is outside the function's domain.
  predicate NoFileOnTheWay(n: Node, parts: seq<string>, slash: bool)
    requires n.Dir?
    decreases |parts|
  {
    parts != [] && (|parts| > 1 || slash) && Hit(n.kids, Fold(parts[0])) ==>
      var kid := n.kids[Slot(n.kids, Fold(parts[0]))];
      kid.Dir? && NoFileOnTheWay(kid, parts[1..], slash)
  }

  function DeleteNode(n: Node, parts: seq<string>, slash: bool): (r: (Status, Node))
    requires n.Dir? && NoFileOnTheWay(n, parts, slash)
    ensures r.1.Dir? && r.1.name == n.name
    decreases |parts|, 1
  {
    if parts == [] then (IsDirectory, n)
    else if !Hit(n.kids, Fold(parts[0])) then (NotFound, n)
    else
      var i := Slot(n.kids, Fold(parts[0]));
      var r := DeleteKid(n.kids[i], parts, slash);
      (r.0, Dir(n.name, if r.1.None? then Remove(n.kids, i) else n.kids[i := r.1.value]))
  }

  // What Delete leaves of the child of the first part: nothing for a file or an emptied directory.
  function DeleteKid(kid: Node, parts: seq<string>, slash: bool): (r: (Status, Option<Node>))
    requires parts != []
    requires |parts| > 1 || slash ==> kid.Dir? && NoFileOnTheWay(kid, parts[1..], slash)
    ensures r.1.Some? ==> r.1.value.Dir? && r.1.value.name == kid.name && r.1.value.kids != []
    decreases |parts|, 0
  {
    if |parts| > 1 || slash then
      var r := DeleteNode(kid, parts[1..], slash);
      (r.0, if r.1.kids == [] then None else Some(r.1))
    else (Ok, None)
  }

  // The paths ListSubtree appends for node n below the path prefix.
  function ListNode(n: Node, value: string, prefix: string): seq<string>
    decreases n, if n.Dir? then |n.kids| + 1 else 0
  {
    match n
    case Leaf(name, v) => if Fold(v) == Fold(value) then [prefix + name] else []
    case Dir(name, kids) => ListKids(n, |kids|, value, prefix + name + "/")
  }

  // The paths of the first count children of n.
  function ListKids(n: Node, count: nat, value: string, prefix: string): seq<string>
    requires n.Dir? && count <= |n.kids|
    decreases n, count
  {
    if count == 0 then [] else ListKids(n, count - 1, value, prefix) + ListNode(n.kids[count-1], value, prefix)
  }
}
