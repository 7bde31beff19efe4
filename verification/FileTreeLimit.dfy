// A file map whose saved file the loader refuses: 2^24 files of 256 bytes each make the byte count
// wrap to zero just where the first name is checked.
module FileTreeLimit {
  import opened CTypes
  import opened CaseFold
  import opened FileTree
  import opened FileTreeStore
  import opened FileTreeCursor
  import opened FileTreeMap
  import opened FileTreeCanon
  import opened FileTreeList
  import opened FileMap
  import opened FileMapRuns

  const FILES := 0x100_0000

  function Pow32(w: nat): (p: nat)
    ensures p > 0
  {
    if w == 0 then 1 else 32 * Pow32(w - 1)
  }

  // The number i in w digits, written with the 32 characters from '[' to 'z': no slash and no upper case.
  function Numeral(i: nat, w: nat): (s: string)
    ensures |s| == w
    ensures forall k :: 0 <= k < w ==> 91 <= s[k] as int < 123
  {
    if w == 0 then "" else Numeral(i / 32, w - 1) + [(91 + i % 32) as char]
  }

  lemma {:induction false} LessAtEnd(s: string, t: string, c: char, d: char)
    requires |s| == |t| && (Less(s, t) || (s == t && c < d))
    ensures Less(s + [c], t + [d])
  {
    if s != [] {
      assert (s + [c])[1..] == s[1..] + [c] && (t + [d])[1..] == t[1..] + [d];
      if s[0] == t[0] { LessAtEnd(s[1..], t[1..], c, d); }
    }
  }

  lemma {:induction false} NumeralsAreSorted(i: nat, j: nat, w: nat)
    requires i < j < Pow32(w)
    ensures Less(Numeral(i, w), Numeral(j, w))
  {
    if i / 32 < j / 32 { NumeralsAreSorted(i / 32, j / 32, w - 1); }
    LessAtEnd(Numeral(i / 32, w - 1), Numeral(j / 32, w - 1), (91 + i % 32) as char, (91 + j % 32) as char);
  }

  function Value(): (v: string)
    ensures |v| == 248 && forall k :: 0 <= k < 248 ==> v[k] == 'v'
  {
    seq(248, _ => 'v')
  }

  function File(i: nat): Node {
    Leaf(Numeral(i, 5), Value())
  }

  // A root with the first k files.
  function FilesBefore(k: nat): (root: Node)
    ensures root.Dir? && root.name == "" && |root.kids| == k
    ensures forall i :: 0 <= i < k ==> root.kids[i] == File(i)
  {
    Dir("", seq(k, i requires 0 <= i < k => File(i)))
  }

  function Huge(): Node { FilesBefore(FILES) }

  lemma FileFits(i: nat)
    ensures Fits(File(i)) && Sorted(File(i)) && Pruned(File(i))
    ensures Fold(File(i).name) == File(i).name
    ensures |SaveNode(File(i))| == 256
  {
    assert Fold(File(i).name) == File(i).name;
  }

  lemma NumeralsSuffice()
    ensures Pow32(5) > FILES
  {
    assert Pow32(3) == 0x8000;
  }

  // It is sorted and pruned, and every field is within its limit.
  lemma HugeIsProper()
    ensures Fits(Huge()) && Sorted(Huge()) && Pruned(Huge())
  {
    hide FilesBefore, Numeral, Value;
    FilesAreCanonical(FILES);
    forall i | 0 <= i < FILES
      ensures Fits(Huge().kids[i])
    {
      FileFits(i);
    }
  }

  // ----- the run that builds it

  // Set the files from k on, one after the other.
  function SetsFrom(k: nat): (ops: seq<Op>)
    requires k <= FILES
    ensures |ops| == FILES - k
    ensures forall i :: 0 <= i < |ops| ==> ops[i] == SetOp(Numeral(k + i, 5), Value())
  {
    seq(FILES - k, i requires 0 <= i < FILES - k => SetOp(Numeral(k + i, 5), Value()))
  }

  lemma FilesAreCanonical(k: nat)
    requires k <= FILES
    ensures Canonical(FilesBefore(k))
  {
    hide FilesBefore, Numeral, Less, Pow32, Value;
    var root := FilesBefore(k);
    NumeralsSuffice();
    forall i | 0 <= i < k
      ensures Sorted(root.kids[i]) && Pruned(root.kids[i]) && root.kids[i].Leaf?
    {
      FileFits(i);
    }
    forall i, j | 0 <= i < j < k
      ensures Less(FoldedName(root.kids[i]), FoldedName(root.kids[j]))
    {
      FileFits(i);
      FileFits(j);
      NumeralsAreSorted(i, j, 5);
    }
  }

  lemma OneName(name: string)
    requires name != [] && '/' !in name
    ensures Parts(name) == [name] && !EndsInSlash(name)
  {
    PartsOfName(name);
  }

  // The next file goes behind those that are there.
  lemma NextFile(k: nat)
    requires k < FILES
    ensures SetNode(FilesBefore(k), [Numeral(k, 5)], false, Value()) == (Ok, FilesBefore(k + 1))
  {
    hide FilesBefore, Numeral, Less, Pow32, Value;
    var root, name := FilesBefore(k), Numeral(k, 5);
    NumeralsSuffice();
    FileFits(k);
    forall i | 0 <= i < k
      ensures Less(FoldedName(root.kids[i]), Fold(name))
    {
      FileFits(i);
      NumeralsAreSorted(i, k, 5);
    }
    assert Slot(root.kids, Fold(name)) == k;
    assert SetNode(root, [name], false, Value()).1.kids == FilesBefore(k + 1).kids;
  }

  lemma NextSet(k: nat)
    requires k < FILES
    ensures var n, op := FilesBefore(k), SetOp(Numeral(k, 5), Value());
      && Canonical(n) && Admissible(Contents(n), op) && StepTree(n, op).1 == FilesBefore(k + 1)
      && StepMap(Contents(n), op).1 == Contents(FilesBefore(k + 1))
  {
    hide FilesBefore, Numeral, Value, Canonical, Contents, StepMap, SetNode, Parts;
    FilesAreCanonical(k);
    OneName(Numeral(k, 5));
    NextFile(k);
    StepRefinesMap(FilesBefore(k), SetOp(Numeral(k, 5), Value()));
  }

  // A run of successful Sets, from the first k files to all of them.
  lemma {:induction false} SetsBuildHuge(k: nat)
    requires k <= FILES
    ensures Canonical(FilesBefore(k)) && AdmissibleRun(Contents(FilesBefore(k)), SetsFrom(k))
    ensures RunTree(FilesBefore(k), SetsFrom(k)).1 == Huge()
    decreases FILES - k
  {
    hide FilesBefore, Numeral, Value, SetsFrom, Canonical, Contents, Admissible, StepTree, StepMap;
    if k < FILES {
      NextSet(k);
      assert SetsFrom(k)[1..] == SetsFrom(k + 1);
      SetsBuildHuge(k + 1);
    } else {
      FilesAreCanonical(k);
    }
  }

  lemma NoFiles()
    ensures FilesBefore(0) == EMPTY
  {
  }

  // From a new file map, 2^24 Sets build it.
  lemma RunBuildsHuge()
    ensures Canonical(EMPTY) && AdmissibleRun(Contents(EMPTY), SetsFrom(0))
    ensures RunTree(EMPTY, SetsFrom(0)).1 == Huge()
  {
    hide FilesBefore, SetsFrom, RunTree, AdmissibleRun, Canonical, Contents;
    NoFiles();
    SetsBuildHuge(0);
  }

  // Their paths and values are texts that an entry can hold.
  lemma SetsAreStorable()
    ensures forall op :: op in SetsFrom(0) ==> Storable(op)
  {
    hide Numeral, Value, Storable, SetsFrom;
    forall op | op in SetsFrom(0)
      ensures Storable(op)
    {
      var k :| 0 <= k < FILES && op == SetsFrom(0)[k];
      SetIsStorable(k);
    }
  }

  lemma SetIsStorable(k: nat)
    ensures Storable(SetOp(Numeral(k, 5), Value()))
  {
    hide Numeral, Value;
    OneName(Numeral(k, 5));
  }

  // On linked entries the same run gives the same tree.
  method BuildHuge() returns (root: Entry)
    ensures fresh(root.repr) && root.Valid() && !root.isLeaf && root.tree == Huge()
  {
    hide *;
    RunBuildsHuge();
    SetsAreStorable();
    root := Build(SetsFrom(0));
  }

  // ----- its saved file

  lemma {:induction false} SizeOfKids(n: Node, count: nat)
    requires n.Dir? && Fits(n) && count <= |n.kids|
    requires forall i :: 0 <= i < |n.kids| ==> |SaveNode(n.kids[i])| == 256
    ensures |SaveKids(n, count)| == 256 * count
    decreases count
  {
    if count > 0 { SizeOfKids(n, count - 1); }
  }

  lemma HugeSize()
    requires Fits(Huge())
    ensures |SaveNode(Huge())| == UINT_RANGE + 6
  {
    hide FilesBefore, Numeral, Value, SaveKids;
    var root := Huge();
    forall i | 0 <= i < FILES
      ensures |SaveNode(root.kids[i])| == 256
    {
      FileFits(i);
    }
    SizeOfKids(root, FILES);
  }

  // The count left before the first name is a multiple of 2^32.
  lemma FirstNameIsRefused()
    ensures !Accounted(Huge(), UINT_RANGE + 6)
  {
    hide FilesBefore, Numeral, Value;
    var root := Huge();
    assert root.kids[|root.kids|-FILES] == File(0);
    assert !Accounted(File(0), UINT_RANGE + 1);
    assert !KidsAccounted(root, FILES, UINT_RANGE + 1);
  }

  // Its saved file has 4 GiB and 34 bytes, and is refused as cut off.
  lemma HugeFileIsRefused()
    ensures Fits(Huge()) && |Signature() + Version() + SaveNode(Huge())| == 0x1_0000_0022
    ensures ReadFile(Signature() + Version() + SaveNode(Huge())) == Broken(EndOfFile)
  {
    hide Huge, ReadFile, Accounted, SaveNode, Signature, Version;
    HugeIsProper();
    HugeSize();
    FirstNameIsRefused();
    SavedFileReadsBackExactly(Huge());
  }
}
