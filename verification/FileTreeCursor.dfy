// SaveNode and LoadNode as the C code runs them: writes to a file, and a cursor that moves
// through a buffer (src/pextlib1.0/filemap.c).
module FileTreeCursor {
  import opened CTypes
  import opened CaseFold
  import opened FileTree
  import opened FileTreeStore

  // Append the node to the file, one write after the other.
  method Save(n: Node, file: string) returns (out: string)
    requires Fits(n)
    ensures out == file + SaveNode(n)
    decreases n, 1
  {
    match n
    case Leaf(name, value) =>
      out := file + [K_LEAF];
      out := out + (name + [NUL]);
      out := out + (value + [NUL]);
    case Dir(name, kids) =>
      hide SaveKids;
      out := file + [K_NODE];
      out := out + (name + [NUL]);
      out := out + SavedCount(|kids|);
      out := SaveSubnodes(n, out);
  }

  // The loop over the subnodes.
  method SaveSubnodes(n: Node, file: string) returns (out: string)
    requires n.Dir? && Fits(n)
    ensures out == file + SaveKids(n, |n.kids|)
    decreases n, 0
  {
    hide SaveNode, SaveKids;
    out := file;
    var index := 0;
    while index < |n.kids|
      invariant index <= |n.kids|
      invariant out + SaveKids(n, |n.kids| - index) == file + SaveKids(n, |n.kids|)
    {
      SavedKidsShape(n, |n.kids| - index, []);
      ghost var kid, rest := SaveNode(n.kids[index]), SaveKids(n, |n.kids| - index - 1);
      assert SaveKids(n, |n.kids| - index) + [] == SaveKids(n, |n.kids| - index) && rest + [] == rest;
      assert out + (kid + rest) == out + kid + rest;
      out := Save(n.kids[index], out);
      index := index + 1;
    }
    NoMoreKids(n);
  }

  lemma NoMoreKids(n: Node)
    requires n.Dir? && Fits(n)
    ensures SaveKids(n, 0) == []
  {
  }

  // strlen from the cursor; None when it runs off the buffer.
  method Length(buffer: string, at: nat) returns (size: Option<nat>)
    requires at <= |buffer|
    ensures size == StrLen(buffer[at..])
  {
    var n := 0;
    while at + n < |buffer| && buffer[at + n] != NUL
      invariant at + n <= |buffer|
      invariant StrLen(buffer[at..]) ==
        var r := StrLen(buffer[at+n..]); if r.None? then None else Some(n + r.value)
    {
      assert buffer[at+n..][1..] == buffer[at+n+1..];
      n := n + 1;
    }
    size := if at + n < |buffer| then Some(n) else None;
  }

  // What LoadKids returns when kids came first.
  function After(kids: seq<Node>, r: LoadKidsResult): LoadKidsResult {
    if r.FailedKids? then r else LoadedKids(kids + r.kids, r.rest, r.left)
  }

  datatype Cursor = Cursor(at: nat, left: nat)

  // A field at the cursor, which moves past its terminator.
  method LoadText(buffer: string, cursor: Cursor) returns (r: FieldResult, next: Cursor)
    requires cursor.at <= |buffer|
    ensures r == LoadField(buffer[cursor.at..], cursor.left)
    ensures r.Field? ==> next.at <= |buffer| && buffer[next.at..] == r.rest && next.left == r.left && cursor.at < next.at
  {
    var at := cursor.at;
    next := cursor;
    var size := Length(buffer, at);
    if size.None? { return NoField(Overrun), next; }
    if size.value > NAME_MAX { return NoField(NameTooLong), next; }
    if size.value > cursor.left % UINT_RANGE { return NoField(EndOfFile), next; }
    next := Cursor(at + size.value + 1, cursor.left - size.value);
    assert buffer[at..][..size.value] == buffer[at..at+size.value];
    assert buffer[at..][size.value+1..] == buffer[next.at..];
    r := Field(buffer[at..at+size.value], buffer[next.at..], next.left);
  }

  // LoadNode at the cursor.
  method Load(buffer: string, cursor: Cursor) returns (r: LoadResult, next: Cursor)
    requires cursor.at <= |buffer|
    ensures r == LoadNode(buffer[cursor.at..], cursor.left)
    ensures r.Loaded? ==> next.at <= |buffer| && buffer[next.at..] == r.rest && next.left == r.left && cursor.at < next.at
    decreases |buffer| - cursor.at, 0
  {
    hide LoadField, LoadKids, ReadCount;
    next := cursor;
    if cursor.left == 0 { return Failed(EndOfFile), next; }
    if cursor.at == |buffer| { return Failed(Overrun), next; }
    var kind := buffer[cursor.at];
    if kind != K_LEAF && kind != K_NODE { return Failed(UnknownNodeKind), next; }
    assert buffer[cursor.at..][1..] == buffer[cursor.at+1..];
    var name, value;
    name, next := LoadText(buffer, Cursor(cursor.at + 1, cursor.left - 1));
    if name.NoField? { return Failed(name.error), next; }
    if kind == K_LEAF {
      value, next := LoadText(buffer, next);
      if value.NoField? { return Failed(value.error), next; }
      return Loaded(Leaf(name.text, value.text), buffer[next.at..], next.left), next;
    }
    if next.left < 4 { return Failed(EndOfFile), next; }
    if |buffer| - next.at < 4 { return Failed(Overrun), next; }
    var count := ReadCount(buffer[next.at..]);
    assert buffer[next.at..][4..] == buffer[next.at+4..];
    var kids;
    kids, next := LoadSubnodes(buffer, Cursor(next.at + 4, next.left - 4), count);
    r := if kids.FailedKids? then Failed(kids.error) else Loaded(Dir(name.text, kids.kids), kids.rest, kids.left);
  }

  // The loop over the subnodes.
  method LoadSubnodes(buffer: string, cursor: Cursor, count: nat) returns (r: LoadKidsResult, next: Cursor)
    requires cursor.at <= |buffer|
    ensures r == LoadKids(buffer[cursor.at..], cursor.left, count)
    ensures r.LoadedKids? ==> cursor.at <= next.at <= |buffer| && buffer[next.at..] == r.rest && next.left == r.left
    decreases |buffer| - cursor.at, 1
  {
    hide LoadNode;
    var kids: seq<Node>, index := [], 0;
    next := cursor;
    while index < count
      invariant index <= count && cursor.at <= next.at <= |buffer|
      invariant LoadKids(buffer[cursor.at..], cursor.left, count) ==
        After(kids, LoadKids(buffer[next.at..], next.left, count - index))
    {
      ghost var more := LoadKids(buffer[next.at..], next.left, count - index);
      var kid;
      kid, next := Load(buffer, next);
      if kid.Failed? { return FailedKids(kid.error), next; }
      assert more == After([kid.node], LoadKids(buffer[next.at..], next.left, count - index - 1));
      AfterTwice(kids, kid.node, LoadKids(buffer[next.at..], next.left, count - index - 1));
      kids := kids + [kid.node];
      index := index + 1;
    }
    r := LoadedKids(kids, buffer[next.at..], next.left);
  }

  lemma AfterTwice(kids: seq<Node>, kid: Node, r: LoadKidsResult)
    ensures After(kids, After([kid], r)) == After(kids + [kid], r)
  {
    if r.LoadedKids? { assert kids + ([kid] + r.kids) == kids + [kid] + r.kids; }
  }

  // ----- whole files

  // The signature and the version a database starts with.
  function Signature(): (s: string)
    ensures |s| == 24
  {
    "org.darwinports.filemap" + [NUL]
  }

  function Version(): (s: string)
    ensures |s| == 4
  {
    [0 as char, 1 as char, 0 as char, 0 as char]
  }

  datatype FileResult = Tree(root: Node) | UnknownVersion | SignatureMismatch | Broken(error: LoadError)

  // What Load makes of the bytes of a file; an empty file is an empty map.
  function ReadFile(file: string): FileResult {
    if file == [] then Tree(Dir("", []))
    else if |file| < 28 then UnknownVersion
    else if file[..24] != Signature() then SignatureMismatch
    else if file[24..28] != Version() then UnknownVersion
    else
      var r := LoadNode(file[28..], |file| - 28);
      if r.Failed? then Broken(r.error) else Tree(r.node)
  }

  method SaveFile(root: Node) returns (file: string)
    requires Fits(root)
    ensures file == Signature() + Version() + SaveNode(root)
  {
    file := Signature() + Version();
    file := Save(root, file);
  }

  method LoadFile(file: string) returns (r: FileResult)
    ensures r == ReadFile(file)
  {
    hide LoadNode, Signature, Version;
    if |file| == 0 { return Tree(Dir("", [])); }
    if |file| < 28 { return UnknownVersion; }
    if file[..24] != Signature() { return SignatureMismatch; }
    if file[24..28] != Version() { return UnknownVersion; }
    var node, _ := Load(file, Cursor(28, |file| - 28));
    r := if node.Failed? then Broken(node.error) else Tree(node.node);
  }

  function CodesOf(s: string): (codes: seq<int>)
    ensures |codes| == |s| && forall i :: 0 <= i < |s| ==> codes[i] == s[i] as int
  {
    seq(|s|, i requires 0 <= i < |s| => s[i] as int)
  }

  // The 28 bytes a file begins with, "org.darwinports.filemap" and the version 0.1.0.0, and what is made of a file
  // without them.
  lemma HeaderBytes(file: string)
    ensures CodesOf(Signature() + Version()) ==
      [111, 114, 103, 46, 100, 97, 114, 119, 105, 110, 112, 111, 114, 116, 115, 46, 102, 105, 108, 101, 109, 97, 112, 0,
       0, 1, 0, 0]
    ensures |file| >= 28 && file[..24] != Signature() ==> ReadFile(file) == SignatureMismatch
    ensures 0 < |file| < 28 || (|file| >= 28 && file[..24] == Signature() && file[24..28] != Version()) ==>
      ReadFile(file) == UnknownVersion
    ensures file == [] ==> ReadFile(file) == Tree(Dir("", []))
  {
  }

  // A saved tree byte by byte: a root with a directory d, in it a file f, and an empty directory e.
  lemma SavedExample()
    ensures var root := Dir("", [Dir("d", [Leaf("f", "v")]), Dir("e", [])]);
      && Fits(root)
      && CodesOf(SaveNode(root)) ==
         [0, 0, 0, 0, 0, 2] +
         ([0, 100, 0, 0, 0, 0, 1, 1, 102, 0, 118, 0] +
          [0, 101, 0, 0, 0, 0, 0])
  {
    hide SaveNode, SaveKids;
    var d, e := Dir("d", [Leaf("f", "v")]), Dir("e", []);
    SavedParts(d, e);
    HeadCodes();
    hide CodesOf, SavedCount;
    CodesTogether([NUL] + "" + [NUL] + SavedCount(2), SaveNode(d) + SaveNode(e));
    CodesTogether(SaveNode(d), SaveNode(e));
  }

  lemma CodesTogether(a: string, b: string)
    ensures CodesOf(a + b) == CodesOf(a) + CodesOf(b)
  {
  }

  lemma HeadCodes()
    ensures CodesOf([NUL] + "" + [NUL] + SavedCount(2)) == [0, 0, 0, 0, 0, 2]
  {
    Count(2);
    assert [NUL] + "" + [NUL] + SavedCount(2) == [NUL, NUL, NUL, NUL, NUL, 2 as char];
    hide SavedCount;
  }

  lemma Count(n: nat)
    requires n < 0x100
    ensures SavedCount(n) == [NUL, NUL, NUL, n as char]
  {
  }

  lemma SavedParts(d: Node, e: Node)
    requires d == Dir("d", [Leaf("f", "v")]) && e == Dir("e", [])
    ensures Fits(d) && Fits(e) && Fits(Dir("", [d, e]))
    ensures SaveNode(Dir("", [d, e])) == [NUL] + "" + [NUL] + SavedCount(2) + (SaveNode(d) + SaveNode(e))
    ensures CodesOf(SaveNode(d)) == [0, 100, 0, 0, 0, 0, 1, 1, 102, 0, 118, 0]
    ensures CodesOf(SaveNode(e)) == [0, 101, 0, 0, 0, 0, 0]
  {
    var f, root := Leaf("f", "v"), Dir("", [d, e]);
    Count(0);
    Count(1);
    hide SavedCount, CodesOf;
    assert SaveKids(root, 2) == SaveNode(d) + (SaveNode(e) + SaveKids(root, 0));
    assert SaveKids(root, 0) == [] && SaveNode(e) + [] == SaveNode(e);
    assert SaveNode(e) == [NUL, 'e', NUL, NUL, NUL, NUL, NUL] by {
      assert SaveKids(e, 0) == [];
    }
    assert SaveNode(f) == [1 as char, 'f', NUL, 'v', NUL];
    assert SaveNode(d) == [NUL, 'd', NUL, NUL, NUL, NUL, 1 as char] + SaveNode(f) by {
      assert SaveKids(d, 1) == SaveNode(f) + SaveKids(d, 0) && SaveKids(d, 0) == [];
    }
    FewCodes(SaveNode(d), SaveNode(e));
  }

  lemma FewCodes(d: string, e: string)
    requires d == [NUL, 'd', NUL, NUL, NUL, NUL, 1 as char] + [1 as char, 'f', NUL, 'v', NUL]
    requires e == [NUL, 'e', NUL, NUL, NUL, NUL, NUL]
    ensures CodesOf(d) == [0, 100, 0, 0, 0, 0, 1, 1, 102, 0, 118, 0]
    ensures CodesOf(e) == [0, 101, 0, 0, 0, 0, 0]
  {
  }

  // A saved file reads back as the same tree exactly if every check of the byte count passes, and
  // is refused as cut off otherwise.
  lemma SavedFileReadsBackExactly(root: Node)
    requires Fits(root)
    ensures ReadFile(Signature() + Version() + SaveNode(root)) ==
      if Accounted(root, |SaveNode(root)|) then Tree(root) else Broken(EndOfFile)
  {
    hide LoadNode, SaveNode, Accounted, Counted, Signature, Version;
    var file := Signature() + Version() + SaveNode(root);
    assert file[..24] == Signature() && file[24..28] == Version();
    assert file[28..] == SaveNode(root) + [];
    LoadsExactly(root, [], |SaveNode(root)|);
  }

  // So every saved file below 4 GiB reads back.
  lemma SavedFileReadsBack(root: Node)
    requires Fits(root) && |SaveNode(root)| < UINT_RANGE
    ensures ReadFile(Signature() + Version() + SaveNode(root)) == Tree(root)
  {
    hide ReadFile, SaveNode, Accounted, Counted;
    CountedIsLoose(root);
    CountedIsAccounted(root, |SaveNode(root)|);
    SavedFileReadsBackExactly(root);
  }
}
