// Runs of Set and Delete on the linked tree: it answers as the finite map does.
module FileMapRuns {
  import opened CTypes
  import opened CaseFold
  import opened FileTree
  import opened FileTreeMap
  import opened FileTreeCanon
  import opened FileTreeList
  import opened FileMap

  // Texts, with names that an entry can hold.
  predicate Storable(op: Op) {
    IsText(op.path) && (op.SetOp? ==> PartsFit(op.path) && IsText(op.value))
  }

  method Perform(root: Entry, op: Op) returns (status: Status)
    requires root.Valid() && !root.isLeaf && Storable(op)
    requires Canonical(root.tree) && Admissible(Contents(root.tree), op)
    modifies root.repr
    ensures root.Valid() && !root.isLeaf && fresh(root.repr - old(root.repr)) && Canonical(root.tree)
    ensures op.DeleteOp? ==> NoFileOnTheWay(old(root.tree), Parts(op.path), EndsInSlash(op.path))
    ensures (status, root.tree) == StepTree(old(root.tree), op)
    ensures (status, Contents(root.tree)) == StepMap(old(Contents(root.tree)), op)
  {
    hide Parts, EndsInSlash, Contents, Admissible, StepMap, Entry.Valid, NoFileOnTheWay;
    StepRefinesMap(root.tree, op);
    match op {
      case SetOp(path, value) =>
        status := root.Set(path, value);
      case DeleteOp(path) =>
        status := root.Delete(path);
    }
  }

  // Every admissible run, from any tree without empty directories.
  method PerformAll(root: Entry, ops: seq<Op>) returns (statuses: seq<Status>)
    requires root.Valid() && !root.isLeaf && forall op :: op in ops ==> Storable(op)
    requires Canonical(root.tree) && AdmissibleRun(Contents(root.tree), ops)
    modifies root.repr
    ensures root.Valid() && !root.isLeaf && fresh(root.repr - old(root.repr))
    ensures (statuses, root.tree) == RunTree(old(root.tree), ops)
  {
    hide Entry.Valid, Canonical, Contents, StepTree, StepMap, Admissible, Storable;
    statuses := [];
    ghost var n := root.tree;
    assert ops[0..] == ops;
    for i := 0 to |ops|
      invariant root.Valid() && !root.isLeaf && fresh(root.repr - old(root.repr))
      invariant Canonical(root.tree) && AdmissibleRun(Contents(root.tree), ops[i..])
      invariant RunTree(n, ops).0 == statuses + RunTree(root.tree, ops[i..]).0
      invariant RunTree(n, ops).1 == RunTree(root.tree, ops[i..]).1
    {
      assert ops[i..][0] == ops[i] && ops[i..][1..] == ops[i + 1..];
      var status := Perform(root, ops[i]);
      statuses := statuses + [status];
    }
    assert ops[|ops|..] == [] && statuses + [] == statuses;
  }

  // A run from a new filemap.
  method Build(ops: seq<Op>) returns (root: Entry)
    requires Canonical(EMPTY) && AdmissibleRun(Contents(EMPTY), ops) && forall op :: op in ops ==> Storable(op)
    ensures fresh(root.repr) && root.Valid() && !root.isLeaf && root.tree == RunTree(EMPTY, ops).1
  {
    hide Entry.Valid, AdmissibleRun, Storable, RunTree, Canonical, Contents;
    root := new Entry("", false);
    assert root.tree == EMPTY;
    var _ := PerformAll(root, ops);
  }

  // From a new filemap, Get answers as the finite map does.
  method RunThenGet(ops: seq<Op>, path: string) returns (result: Option<string>)
    requires AdmissibleRun(map[], ops) && (forall op :: op in ops ==> Storable(op)) && IsText(path)
    ensures var m := RunMap(map[], ops).1;
      result == if !EndsInSlash(path) && KeyOf(path) in m then Some(m[KeyOf(path)]) else None
  {
    hide Entry.Valid, AdmissibleRun, Storable, RunMap, RunTree, EndsInSlash, Canonical, Contents;
    CreateIsEmpty();
    var root := Build(ops);
    result := root.Get(path);
    GetAfterRun(ops, path);
  }

  // And List answers with each mapped path whose value matches, once.
  method RunThenList(ops: seq<Op>, v: string) returns (paths: seq<string>)
    requires AdmissibleRun(map[], ops) && (forall op :: op in ops ==> Storable(op)) && IsText(v)
    ensures var m := RunMap(map[], ops).1;
      Exactly(KeysOf(paths), set k | k in m && Fold(m[k]) == Fold(v))
  {
    hide Entry.Valid, AdmissibleRun, Storable, RunMap, RunTree, Canonical, Contents, Exactly, KeysOf;
    CreateIsEmpty();
    var root := Build(ops);
    paths := root.ListSubtree(v, "");
    ListAfterRun(ops, v);
  }
}
