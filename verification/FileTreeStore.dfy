// The storage format of filemaps: SaveNode and LoadNode (src/pextlib1.0/filemap.c).
// A file is a sequence of bytes, each a char below 256.
module FileTreeStore {
  import opened CTypes
  import opened CaseFold
  import opened FileTree

  const K_NODE: char := 0 as char
  const K_LEAF: char := 1 as char

  // kUnknownNodeKind_Err, kNameTooLong_Err and kEOFWhileLoadingDB_Err; Overrun stands for a read
  // past the end of the buffer, which the C code does not notice.
  datatype LoadError = UnknownNodeKind | NameTooLong | EndOfFile | Overrun

  // On success the node, the bytes not yet read and the count of bytes believed left.
  datatype LoadResult =
    | Loaded(node: Node, rest: string, left: nat)
    | Failed(error: LoadError)

  datatype LoadKidsResult =
    | LoadedKids(kids: seq<Node>, rest: string, left: nat)
    | FailedKids(error: LoadError)

  // ----- four-byte counts

  function CharOf(n: nat): char { (n % 0x100) as char }

  function SavedCount(n: nat): (r: string)
    ensures |r| == 4
  {
    [CharOf(n / 0x100_0000), CharOf(n / 0x1_0000), CharOf(n / 0x100), CharOf(n)]
  }

  function ReadCount(b: string): (n: nat)
    requires |b| >= 4
  {
    ((b[0] as int * 0x100 + b[1] as int) * 0x100 + b[2] as int) * 0x100 + b[3] as int
  }

  lemma SplitIntoBytes(n: nat)
    requires n < UINT_RANGE
    ensures n == ((n / 0x100_0000 % 0x100 * 0x100 + n / 0x1_0000 % 0x100) * 0x100 + n / 0x100 % 0x100) * 0x100 + n % 0x100
  {
    assert n / 0x1_0000 == n / 0x100 / 0x100 && n / 0x100_0000 == n / 0x1_0000 / 0x100;
  }

  lemma CountReadsBack(n: nat)
    requires n < UINT_RANGE
    ensures ReadCount(SavedCount(n)) == n
    ensures var b := SavedCount(n);
      n == b[0] as int * 0x100_0000 + b[1] as int * 0x1_0000 + b[2] as int * 0x100 + b[3] as int
  {
    SplitIntoBytes(n);
  }

  // ----- saving

  function SaveNode(n: Node): string
    requires Fits(n)
    decreases n, if n.Dir? then |n.kids| + 1 else 0
  {
    match n
    case Leaf(name, value) => [K_LEAF] + name + [NUL] + value + [NUL]
    case Dir(name, kids) => [K_NODE] + name + [NUL] + SavedCount(|kids|) + SaveKids(n, |kids|)
  }

  // The bytes of the last count children, in order.
  function SaveKids(n: Node, count: nat): string
    requires n.Dir? && Fits(n) && count <= |n.kids|
    decreases n, count
  {
    if count == 0 then [] else SaveNode(n.kids[|n.kids|-count]) + SaveKids(n, count - 1)
  }

  // Bytes only, and no NUL among them.
  predicate IsCString(s: string) {
    forall i :: 0 <= i < |s| ==> 0 < s[i] as int < 0x100
  }

  predicate FitsField(s: string) {
    IsCString(s) && |s| <= NAME_MAX
  }

  // What the C structures can hold.
  predicate Fits(n: Node) {
    && FitsField(n.name)
    && (n.Leaf? ==> FitsField(n.value))
    && (n.Dir? ==> |n.kids| < UINT_RANGE && forall i :: 0 <= i < |n.kids| ==> Fits(n.kids[i]))
  }

  // The bytes LoadNode counts for n: all but the terminators of its strings.
  function Counted(n: Node): nat
    decreases n, if n.Dir? then |n.kids| + 1 else 0
  {
    match n
    case Leaf(name, value) => 1 + |name| + |value|
    case Dir(name, kids) => 1 + |name| + 4 + CountedKids(n, |kids|)
  }

  function CountedKids(n: Node, count: nat): nat
    requires n.Dir? && count <= |n.kids|
    decreases n, count
  {
    if count == 0 then 0 else Counted(n.kids[|n.kids|-count]) + CountedKids(n, count - 1)
  }

  // ----- loading

  // strlen(3); None when the string runs off the end of the buffer.
  function StrLen(s: string): (r: Option<nat>)
    ensures r.Some? ==> r.value < |s| && s[r.value] == NUL && NUL !in s[..r.value]
  {
    if s == [] then None
    else if s[0] == NUL then Some(0)
    else
      var r := StrLen(s[1..]);
      if r.None? then None else Some(1 + r.value)
  }

  datatype FieldResult =
    | Field(text: string, rest: string, left: nat)
    | NoField(error: LoadError)

  // A terminated string; its size is compared with the count cut to 32 bits.
  function LoadField(input: string, left: nat): (r: FieldResult)
    ensures r.Field? ==> |r.rest| < |input|
  {
    var size := StrLen(input);
    if size.None? then NoField(Overrun)
    else if size.value > NAME_MAX then NoField(NameTooLong)
    else if size.value > left % UINT_RANGE then NoField(EndOfFile)
    else Field(input[..size.value], input[size.value+1..], left - size.value)
  }

  function LoadNode(input: string, left: nat): (r: LoadResult)
    ensures r.Loaded? ==> |r.rest| < |input|
    decreases |input|, 0
  {
    if left == 0 then Failed(EndOfFile)
    else if input == [] then Failed(Overrun)
    else if input[0] != K_LEAF && input[0] != K_NODE then Failed(UnknownNodeKind)
    else
      var name := LoadField(input[1..], left - 1);
      if name.NoField? then Failed(name.error)
      else if input[0] == K_LEAF then
        var value := LoadField(name.rest, name.left);
        if value.NoField? then Failed(value.error)
        else Loaded(Leaf(name.text, value.text), value.rest, value.left)
      else if name.left < 4 then Failed(EndOfFile)
      else if |name.rest| < 4 then Failed(Overrun)
      else
        var r := LoadKids(name.rest[4..], name.left - 4, ReadCount(name.rest));
        if r.FailedKids? then Failed(r.error) else Loaded(Dir(name.text, r.kids), r.rest, r.left)
  }

  function LoadKids(input: string, left: nat, count: nat): (r: LoadKidsResult)
    ensures r.LoadedKids? ==> |r.rest| <= |input| && |r.kids| == count
    decreases |input|, 1
  {
    if count == 0 then LoadedKids([], input, left)
    else
      var r := LoadNode(input, left);
      if r.Failed? then FailedKids(r.error)
      else
        var rs := LoadKids(r.rest, r.left, count - 1);
        if rs.FailedKids? then rs else LoadedKids([r.node] + rs.kids, rs.rest, rs.left)
  }

  // What is refused at the start of a node: nothing left to count, a kind that is neither 0 nor 1, a name of more than
  // 255 bytes, and a name longer than the count left behind the kind.
  lemma BadNodesAreRefused(input: string, left: nat, n: nat)
    requires input != [] && n + 1 < |input| && input[n + 1] == NUL && NUL !in input[1..n + 1]
    ensures left == 0 ==> LoadNode(input, left) == Failed(EndOfFile)
    ensures left > 0 && input[0] as int > 1 ==> LoadNode(input, left) == Failed(UnknownNodeKind)
    ensures left > 0 && input[0] as int <= 1 && n > 255 ==> LoadNode(input, left) == Failed(NameTooLong)
    ensures left > 0 && input[0] as int <= 1 && n <= 255 && n > (left - 1) % 0x1_0000_0000 ==>
      LoadNode(input, left) == Failed(EndOfFile)
  {
    StrLenIs(input[1..], n);
  }

  lemma {:induction false} StrLenIs(s: string, n: nat)
    requires n < |s| && s[n] == NUL && NUL !in s[..n]
    ensures StrLen(s) == Some(n)
  {
    var r := StrLen(s);
    if n > 0 {
      assert s[0] == s[..n][0];
      assert s[1..][..n - 1] == s[..n][1..];
      StrLenIs(s[1..], n - 1);
    }
  }

  lemma LoadNoKids(input: string, left: nat)
    ensures LoadKids(input, left, 0) == LoadedKids([], input, left)
  {
  }

  // ----- loading undoes saving

  lemma {:induction false} StrLenOfSaved(s: string, rest: string)
    requires IsCString(s)
    ensures StrLen(s + [NUL] + rest) == Some(|s|)
  {
    var t := s + [NUL] + rest;
    if s != [] {
      assert t[1..] == s[1..] + [NUL] + rest;
      StrLenOfSaved(s[1..], rest);
    }
  }

  // A saved string is read back exactly if the count left, cut to 32 bits, is not below its size.
  lemma LoadSavedField(s: string, rest: string, left: nat)
    requires FitsField(s)
    ensures LoadField(s + [NUL] + rest, left) ==
      if |s| <= left % UINT_RANGE then Field(s, rest, left - |s|) else NoField(EndOfFile)
  {
    StrLenOfSaved(s, rest);
    assert (s + [NUL] + rest)[..|s|] == s && (s + [NUL] + rest)[|s|+1..] == rest;
  }

  lemma SavedLeafShape(n: Node, rest: string)
    requires n.Leaf? && Fits(n)
    ensures var input := SaveNode(n) + rest;
      input != [] && input[0] == K_LEAF && input[1..] == n.name + [NUL] + (n.value + [NUL] + rest)
  {
  }

  lemma SavedDirShape(n: Node, rest: string)
    requires n.Dir? && Fits(n)
    ensures var input, t := SaveNode(n) + rest, SavedCount(|n.kids|) + (SaveKids(n, |n.kids|) + rest);
      && input != [] && input[0] == K_NODE && input[1..] == n.name + [NUL] + t
      && t[4..] == SaveKids(n, |n.kids|) + rest && ReadCount(t) == |n.kids|
  {
    CountReadsBack(|n.kids|);
  }

  // Every check of the count on the way through n passes: at each string the count left, cut to
  // 32 bits, is at least its size.
  predicate Accounted(n: Node, left: nat)
    decreases n, if n.Dir? then |n.kids| + 1 else 0
  {
    && left > 0 && |n.name| <= (left - 1) % UINT_RANGE
    && match n
       case Leaf(name, value) => |value| <= (left - 1 - |name|) % UINT_RANGE
       case Dir(name, kids) => left - 1 - |name| >= 4 && KidsAccounted(n, |kids|, left - 5 - |name|)
  }

  predicate KidsAccounted(n: Node, count: nat, left: nat)
    requires n.Dir? && count <= |n.kids|
    decreases n, count
  {
    count == 0 ||
    var kid := n.kids[|n.kids|-count];
    Accounted(kid, left) && Counted(kid) <= left && KidsAccounted(n, count - 1, left - Counted(kid))
  }

  lemma {:induction false} AccountedIsCounted(n: Node, left: nat)
    requires Accounted(n, left)
    ensures Counted(n) <= left
    decreases n, if n.Dir? then |n.kids| + 1 else 0
  {
    if n.Dir? { KidsAccountedAreCounted(n, |n.kids|, left - 5 - |n.name|); }
  }

  lemma {:induction false} KidsAccountedAreCounted(n: Node, count: nat, left: nat)
    requires n.Dir? && count <= |n.kids| && KidsAccounted(n, count, left)
    ensures CountedKids(n, count) <= left
    decreases n, count
  {
    if count != 0 { KidsAccountedAreCounted(n, count - 1, left - Counted(n.kids[|n.kids|-count])); }
  }

  // What a loader makes of a node that it reads with the count left.
  function Outcome(n: Node, rest: string, left: nat): LoadResult {
    if Accounted(n, left) then
      AccountedIsCounted(n, left);
      Loaded(n, rest, left - Counted(n))
    else Failed(EndOfFile)
  }

  function OutcomeOfKids(n: Node, count: nat, rest: string, left: nat): LoadKidsResult
    requires n.Dir? && count <= |n.kids|
  {
    if KidsAccounted(n, count, left) then
      KidsAccountedAreCounted(n, count, left);
      LoadedKids(n.kids[|n.kids|-count..], rest, left - CountedKids(n, count))
    else FailedKids(EndOfFile)
  }

  // Loading the saved bytes gives the node back and stops exactly after them, or is refused as
  // cut off: it is loaded exactly if every check of the count passes.
  lemma {:induction false} LoadsExactly(n: Node, rest: string, left: nat)
    requires Fits(n)
    ensures LoadNode(SaveNode(n) + rest, left) == Outcome(n, rest, left)
    decreases n, if n.Dir? then |n.kids| + 1 else 0
  {
    hide LoadNode, LoadKids, LoadField, Counted, CountedKids, KidsAccounted, Fits, FitsField;
    var input := SaveNode(n) + rest;
    NoBytesLeft(input);
    if left == 0 { return; }
    FieldsFit(n);
    if n.Leaf? {
      SavedLeafShape(n, rest);
      LoadSavedField(n.name, n.value + [NUL] + rest, left - 1);
      if |n.name| <= (left - 1) % UINT_RANGE { LoadSavedField(n.value, rest, left - 1 - |n.name|); }
      LeafOutcome(n, input, rest, left);
    } else {
      SavedDirShape(n, rest);
      var t := SavedCount(|n.kids|) + (SaveKids(n, |n.kids|) + rest);
      LoadSavedField(n.name, t, left - 1);
      if |n.name| <= (left - 1) % UINT_RANGE && left - 1 - |n.name| >= 4 {
        LoadsKidsExactly(n, |n.kids|, rest, left - 5 - |n.name|);
      }
      DirOutcome(n, input, t, rest, left);
    }
  }

  lemma NoBytesLeft(input: string)
    ensures LoadNode(input, 0) == Failed(EndOfFile)
  {
  }

  lemma FieldsFit(n: Node)
    requires Fits(n)
    ensures FitsField(n.name) && (n.Leaf? ==> FitsField(n.value))
    ensures n.Dir? ==> forall i :: 0 <= i < |n.kids| ==> Fits(n.kids[i])
  {
  }

  lemma LeafOutcome(n: Node, input: string, rest: string, left: nat)
    requires n.Leaf? && left > 0 && input != [] && input[0] == K_LEAF
    requires LoadField(input[1..], left - 1) ==
      if |n.name| <= (left - 1) % UINT_RANGE then Field(n.name, n.value + [NUL] + rest, left - 1 - |n.name|)
      else NoField(EndOfFile)
    requires |n.name| <= (left - 1) % UINT_RANGE ==>
      LoadField(n.value + [NUL] + rest, left - 1 - |n.name|) ==
        if |n.value| <= (left - 1 - |n.name|) % UINT_RANGE then Field(n.value, rest, left - 1 - |n.name| - |n.value|)
        else NoField(EndOfFile)
    ensures LoadNode(input, left) == Outcome(n, rest, left)
  {
    hide LoadField;
  }

  lemma DirOutcome(n: Node, input: string, t: string, rest: string, left: nat)
    requires n.Dir? && left > 0 && input != [] && input[0] == K_NODE && |t| >= 4 && ReadCount(t) == |n.kids|
    requires LoadField(input[1..], left - 1) ==
      if |n.name| <= (left - 1) % UINT_RANGE then Field(n.name, t, left - 1 - |n.name|) else NoField(EndOfFile)
    requires |n.name| <= (left - 1) % UINT_RANGE && left - 1 - |n.name| >= 4 ==>
      LoadKids(t[4..], left - 5 - |n.name|, |n.kids|) == OutcomeOfKids(n, |n.kids|, rest, left - 5 - |n.name|)
    ensures LoadNode(input, left) == Outcome(n, rest, left)
  {
    hide LoadField, LoadKids, KidsAccounted, CountedKids, ReadCount;
    assert n.kids[|n.kids|-|n.kids|..] == n.kids;
  }

  lemma SavedKidsShape(n: Node, count: nat, rest: string)
    requires n.Dir? && Fits(n) && 0 < count <= |n.kids|
    ensures SaveKids(n, count) + rest == SaveNode(n.kids[|n.kids|-count]) + (SaveKids(n, count - 1) + rest)
    ensures n.kids[|n.kids|-count..] == [n.kids[|n.kids|-count]] + n.kids[|n.kids|-(count-1)..]
  {
  }

  lemma {:induction false} LoadsKidsExactly(n: Node, count: nat, rest: string, left: nat)
    requires n.Dir? && Fits(n) && count <= |n.kids|
    ensures LoadKids(SaveKids(n, count) + rest, left, count) == OutcomeOfKids(n, count, rest, left)
    decreases n, count
  {
    hide LoadNode, LoadKids, Accounted, Counted;
    if count == 0 {
      LoadNoKids(rest, left);
      assert SaveKids(n, 0) + rest == rest;
      assert n.kids[|n.kids|-0..] == [];
    } else {
      var kid := n.kids[|n.kids|-count];
      var tail := SaveKids(n, count - 1) + rest;
      SavedKidsShape(n, count, rest);
      LoadsExactly(kid, tail, left);
      if Accounted(kid, left) {
        AccountedIsCounted(kid, left);
        LoadsKidsExactly(n, count - 1, rest, left - Counted(kid));
      }
      KidsOutcome(n, count, SaveNode(kid) + tail, tail, rest, left);
    }
  }

  lemma KidsOutcome(n: Node, count: nat, input: string, tail: string, rest: string, left: nat)
    requires n.Dir? && 0 < count <= |n.kids|
    requires LoadNode(input, left) == Outcome(n.kids[|n.kids|-count], tail, left)
    requires var kid := n.kids[|n.kids|-count];
      Accounted(kid, left) ==>
        (Counted(kid) <= left &&
        LoadKids(tail, left - Counted(kid), count - 1) == OutcomeOfKids(n, count - 1, rest, left - Counted(kid)))
    ensures LoadKids(input, left, count) == OutcomeOfKids(n, count, rest, left)
  {
    hide LoadNode, Accounted, Counted;
    assert n.kids[|n.kids|-count..] == [n.kids[|n.kids|-count]] + n.kids[|n.kids|-(count-1)..];
  }

  // Below 4 GiB a count that is large enough passes every check.
  lemma {:induction false} CountedIsAccounted(n: Node, left: nat)
    requires Counted(n) <= left < UINT_RANGE
    ensures Accounted(n, left)
    decreases n, if n.Dir? then |n.kids| + 1 else 0
  {
    if n.Dir? { CountedKidsAreAccounted(n, |n.kids|, left - 5 - |n.name|); }
  }

  lemma {:induction false} CountedKidsAreAccounted(n: Node, count: nat, left: nat)
    requires n.Dir? && count <= |n.kids| && CountedKids(n, count) <= left < UINT_RANGE
    ensures KidsAccounted(n, count, left)
    decreases n, count
  {
    if count != 0 {
      var kid := n.kids[|n.kids|-count];
      CountedIsAccounted(kid, left);
      CountedKidsAreAccounted(n, count - 1, left - Counted(kid));
    }
  }

  // Loading undoes saving. The byte count that remains is too large by the number of terminators
  // passed, and never too small.
  lemma LoadUndoesSave(n: Node, rest: string, left: nat)
    requires Fits(n) && Counted(n) <= left < UINT_RANGE
    ensures LoadNode(SaveNode(n) + rest, left) == Loaded(n, rest, left - Counted(n))
  {
    hide LoadNode, Accounted, Counted, SaveNode;
    CountedIsAccounted(n, left);
    LoadsExactly(n, rest, left);
  }

  // The loader's count is never above the number of bytes it reads.
  lemma {:induction false} CountedIsLoose(n: Node)
    requires Fits(n)
    ensures Counted(n) < |SaveNode(n)|
    decreases n, if n.Dir? then |n.kids| + 1 else 0
  {
    if n.Dir? { CountedKidsIsLoose(n, |n.kids|); }
  }

  lemma {:induction false} CountedKidsIsLoose(n: Node, count: nat)
    requires n.Dir? && Fits(n) && count <= |n.kids|
    ensures CountedKids(n, count) <= |SaveKids(n, count)|
    decreases n, count
  {
    if count != 0 {
      CountedIsLoose(n.kids[|n.kids|-count]);
      CountedKidsIsLoose(n, count - 1);
    }
  }

  // A saved file below 4 GiB loads back to the same tree, whatever follows it.
  lemma SavedFileLoads(n: Node, rest: string)
    requires Fits(n) && |SaveNode(n) + rest| < UINT_RANGE
    ensures var r := LoadNode(SaveNode(n) + rest, |SaveNode(n) + rest|);
      r.Loaded? && r.node == n && r.rest == rest && r.left > |rest|
  {
    CountedIsLoose(n);
    LoadUndoesSave(n, rest, |SaveNode(n) + rest|);
  }

  // ----- saving undoes loading

  predicate Bytes(s: string) {
    forall i :: 0 <= i < |s| ==> s[i] as int < 0x100
  }

  lemma SavedCountOfRead(t: string)
    requires Bytes(t) && |t| >= 4
    ensures ReadCount(t) < UINT_RANGE && SavedCount(ReadCount(t)) == t[..4]
  {
    var b0, b1, b2, b3 := t[0] as int, t[1] as int, t[2] as int, t[3] as int;
    var n1 := b0 * 0x100 + b1;
    var n2 := n1 * 0x100 + b2;
    LastDigit(b0, b1);
    LastDigit(n1, b2);
    LastDigit(n2, b3);
    var n := n2 * 0x100 + b3;
    assert n / 0x1_0000 == n2 / 0x100 && n / 0x100_0000 == n2 / 0x1_0000 == n1 / 0x100;
    assert t[..4] == [t[0], t[1], t[2], t[3]];
  }

  lemma LastDigit(high: nat, low: nat)
    requires low < 0x100
    ensures (high * 0x100 + low) / 0x100 == high && (high * 0x100 + low) % 0x100 == low
  {
  }

  lemma SaveUndoesLoadField(input: string, left: nat)
    requires Bytes(input) && LoadField(input, left).Field?
    ensures var f := LoadField(input, left);
      FitsField(f.text) && input == f.text + [NUL] + f.rest && Bytes(f.rest) && f.left == left - |f.text|
  {
    var f := LoadField(input, left);
    forall i | 0 <= i < |f.text| ensures 0 < f.text[i] as int { assert f.text[i] in f.text; }
  }

  lemma HowNodeWasLoaded(input: string, left: nat)
    requires LoadNode(input, left).Loaded?
    ensures left > 0 && input != [] && input[0] in {K_LEAF, K_NODE}
    ensures var r, name := LoadNode(input, left), LoadField(input[1..], left - 1);
      && name.Field?
      && (input[0] == K_LEAF ==>
           var value := LoadField(name.rest, name.left);
           value.Field? && r == Loaded(Leaf(name.text, value.text), value.rest, value.left))
      && (input[0] == K_NODE ==>
           && name.left >= 4 && |name.rest| >= 4
           && var rs := LoadKids(name.rest[4..], name.left - 4, ReadCount(name.rest));
           rs.LoadedKids? && r == Loaded(Dir(name.text, rs.kids), rs.rest, rs.left))
  {
  }

  lemma HowKidsWereLoaded(input: string, left: nat, count: nat)
    requires LoadKids(input, left, count).LoadedKids? && count > 0
    ensures var rs, r := LoadKids(input, left, count), LoadNode(input, left);
      && r.Loaded?
      && var rs' := LoadKids(r.rest, r.left, count - 1);
      rs'.LoadedKids? && rs == LoadedKids([r.node] + rs'.kids, rs'.rest, rs'.left)
  {
  }

  // Whatever LoadNode accepts, saving the result writes back exactly the bytes it read.
  lemma {:induction false} SaveUndoesLoad(input: string, left: nat)
    requires Bytes(input) && LoadNode(input, left).Loaded?
    ensures var r := LoadNode(input, left);
      Fits(r.node) && input == SaveNode(r.node) + r.rest && r.left == left - Counted(r.node)
    decreases |input|, 0
  {
    hide LoadNode, LoadKids, LoadField;
    HowNodeWasLoaded(input, left);
    var r, name := LoadNode(input, left), LoadField(input[1..], left - 1);
    SaveUndoesLoadField(input[1..], left - 1);
    if input[0] == K_LEAF {
      SaveUndoesLoadField(name.rest, name.left);
      SavedLeafShape(r.node, r.rest);
    } else {
      SavedCountOfRead(name.rest);
      SaveKidsUndoesLoadKids(r.node, ReadCount(name.rest), name.rest[4..], name.left - 4);
      SavedDirShape(r.node, r.rest);
      assert name.rest == name.rest[..4] + name.rest[4..];
    }
    assert input == [input[0]] + input[1..];
    assert SaveNode(r.node) + r.rest == [input[0]] + (SaveNode(r.node) + r.rest)[1..];
  }

  lemma {:induction false} SaveKidsUndoesLoadKids(n: Node, count: nat, input: string, left: nat)
    requires Bytes(input) && LoadKids(input, left, count).LoadedKids?
    requires n.Dir? && count <= |n.kids| && LoadKids(input, left, count).kids == n.kids[|n.kids|-count..]
    ensures var r := LoadKids(input, left, count);
      && (forall i :: |n.kids| - count <= i < |n.kids| ==> Fits(n.kids[i]))
      && (Fits(n) ==> input == SaveKids(n, count) + r.rest)
      && r.left == left - CountedKids(n, count)
    decreases |input|, 1
  {
    hide LoadNode, LoadKids;
    if count == 0 {
      LoadNoKids(input, left);
      return;
    }
    HowKidsWereLoaded(input, left, count);
    var r := LoadNode(input, left);
    SaveUndoesLoad(input, left);
    var tail := n.kids[|n.kids|-count..];
    assert r.node == tail[0] == n.kids[|n.kids|-count];
    assert LoadKids(r.rest, r.left, count - 1).kids == tail[1..] == n.kids[|n.kids|-(count-1)..];
    assert forall i :: 0 <= i < |r.rest| ==> r.rest[i] == input[|SaveNode(r.node)| + i];
    SaveKidsUndoesLoadKids(n, count - 1, r.rest, r.left);
    if Fits(n) { SavedKidsShape(n, count, LoadKids(input, left, count).rest); }
  }
}
