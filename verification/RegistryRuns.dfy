// The registry as a state machine: entries, files and transactions, over whole runs.
module RegistryRuns {
  import opened CTypes
  import opened FilesTable
  import opened FileOwnership

  // What a transaction reverts to when it is rolled back.
  datatype Database = Database(ports: set<EntryId>, lastPort: EntryId, files: Table)

  datatype State = State(db: Database, saved: Option<Database>)

  datatype Op =
    | Create
    | Delete(id: EntryId)
    | Map(id: EntryId, files: seq<Path>)
    | Unmap(id: EntryId, files: seq<Path>)
    | Activate(id: EntryId, files: seq<Path>, asFiles: seq<Path>)
    | Deactivate(id: EntryId, files: seq<Path>)
    | Begin
    | Commit
    | Rollback

  // An operation on an entry changes the database; a misplaced transaction statement changes nothing.
  function Step(s: State, op: Op): State {
    match op
    case Begin => if s.saved.Some? then s else s.(saved := Some(s.db))
    case Commit => s.(saved := None)
    case Rollback => if s.saved.Some? then State(s.saved.value, None) else s
    case _ => s.(db := Change(s.db, op))
  }

  function Change(db: Database, op: Op): Database {
    match op
    case Create => Database(db.ports + {db.lastPort + 1}, db.lastPort + 1, db.files)
    case Delete(id) =>
      if id in db.ports then Database(db.ports - {id}, db.lastPort, DeleteEntry(db.files, id)) else db
    case Map(id, files) => db.(files := MapFrom(db.files, id, files, 0))
    case Unmap(id, files) => db.(files := UnmapFrom(db.files, id, files, 0).0)
    case Activate(id, files, asFiles) =>
      if |files| == |asFiles| then db.(files := ActivateFrom(db.files, id, files, asFiles, 0).0) else db
    case Deactivate(id, files) => db.(files := DeactivateFrom(db.files, id, files, 0).0)
    case _ => db
  }

  function Run(s: State, ops: seq<Op>): State
    decreases |ops|
  {
    if ops == [] then s else Run(Step(s, ops[0]), ops[1..])
  }

  // Every Map of the run lists paths that its entry does not map yet, as reg_entry_map asks.
  predicate MapsFreshPaths(s: State, ops: seq<Op>)
    decreases |ops|
  {
    ops == []
    || ((ops[0].Map? ==> Fresh(s.db.files, ops[0].id, ops[0].files, 0)) && MapsFreshPaths(Step(s, ops[0]), ops[1..]))
  }

  predicate SoundState(s: State) {
    Sound(s.db.files) && (s.saved.Some? ==> Sound(s.saved.value.files))
  }

  lemma StepKeeps(s: State, op: Op)
    requires SoundState(s) && (op.Map? ==> Fresh(s.db.files, op.id, op.files, 0))
    ensures SoundState(Step(s, op))
  {
    hide Sound, MapFrom, UnmapFrom, ActivateFrom, DeactivateFrom, DeleteEntry;
    match op
    case Delete(id) => DeleteEntryKeeps(s.db.files, id);
    case Map(id, files) => MapKeeps(s.db.files, id, files, 0);
    case Unmap(id, files) => UnmapKeeps(s.db.files, id, files, 0);
    case Activate(id, files, asFiles) =>
      if |files| == |asFiles| {
        ActivateKeeps(s.db.files, id, files, asFiles, 0);
      }
    case Deactivate(id, files) => DeactivateKeeps(s.db.files, id, files, 0);
    case _ =>
  }

  const EMPTY := State(Database({}, 0, Table(map[], 0)), None)

  // Over every such run no path has two active files, even after activations that stop partway and after rollbacks.
  lemma {:induction false} RunKeeps(s: State, ops: seq<Op>)
    requires SoundState(s) && MapsFreshPaths(s, ops)
    ensures SoundState(Run(s, ops))
    decreases |ops|
  {
    hide SoundState, Step;
    if ops != [] {
      StepKeeps(s, ops[0]);
      RunKeeps(Step(s, ops[0]), ops[1..]);
    }
  }

  lemma NoPathHasTwoOwners(ops: seq<Op>, a: EntryId, b: EntryId, path: Path)
    requires MapsFreshPaths(EMPTY, ops)
    requires Owns(Run(EMPTY, ops).db.files, a, path) && Owns(Run(EMPTY, ops).db.files, b, path)
    ensures a == b
  {
    RunKeeps(EMPTY, ops);
    OwnerIsUnique(Run(EMPTY, ops).db.files, a, b, path);
  }

  // ----- a run to a deactivation that does nothing

  lemma OneFile(t: Table, id: EntryId, path: Path)
    ensures MapFrom(t, id, [path], 0) == Insert(t, id, path)
    ensures !IsUsed(t, path) && IsMapped(t, id, path) ==>
      ActivateFrom(t, id, [path], [path], 0) == (SetActive(t, id, path, path), Success)
    ensures IsShown(t, id, path) ==> DeactivateFrom(t, id, [path], 0) == (ClearActive(t, id, path), Success)
  {
    hide IsUsed, IsMapped, IsShown, Insert, SetActive, ClearActive;
    var files := [path];
    assert MapFrom(Insert(t, id, path), id, files, 1) == Insert(t, id, path);
    assert ActivateFrom(SetActive(t, id, path, path), id, files, files, 1) == (SetActive(t, id, path, path), Success);
    assert DeactivateFrom(ClearActive(t, id, path), id, files, 1) == (ClearActive(t, id, path), Success);
  }

  // The files table of two entries that map one path.
  function Two(first: Row, second: Row): Table {
    Table(map[0 := first, 1 := second], 2)
  }

  predicate Rivals(first: Row, second: Row, path: Path) {
    first.id != second.id && first.path == second.path == path
  }

  lemma MapTwo(a: EntryId, b: EntryId, path: Path)
    ensures var first, second := Row(a, path, None, false), Row(b, path, None, false);
      MapFrom(MapFrom(Table(map[], 0), a, [path], 0), b, [path], 0) == Two(first, second)
  {
    OneFile(Table(map[], 0), a, path);
    OneFile(Insert(Table(map[], 0), a, path), b, path);
  }

  lemma ActivateFirst(first: Row, second: Row, path: Path)
    requires Rivals(first, second, path) && !first.active && !second.active
    ensures ActivateFrom(Two(first, second), first.id, [path], [path], 0).0 ==
      Two(first.(actual := Some(path), active := true), second)
  {
    var t := Two(first, second);
    assert Maps(t.rows[0], first.id, path);
    OneFile(t, first.id, path);
    assert SetActive(t, first.id, path, path).rows == Two(first.(actual := Some(path), active := true), second).rows;
  }

  lemma ActivateSecond(first: Row, second: Row, path: Path)
    requires Rivals(first, second, path) && !first.active && !second.active
    ensures ActivateFrom(Two(first, second), second.id, [path], [path], 0).0 ==
      Two(first, second.(actual := Some(path), active := true))
  {
    var t := Two(first, second);
    assert Maps(t.rows[1], second.id, path);
    OneFile(t, second.id, path);
    assert SetActive(t, second.id, path, path).rows == Two(first, second.(actual := Some(path), active := true)).rows;
  }

  lemma DeactivateFirst(first: Row, second: Row, path: Path)
    requires Rivals(first, second, path) && first.actual == Some(path)
    ensures DeactivateFrom(Two(first, second), first.id, [path], 0).0 == Two(first.(active := false), second)
  {
    var t := Two(first, second);
    assert ShownAs(t.rows[0], first.id, path);
    OneFile(t, first.id, path);
    assert ClearActive(t, first.id, path).rows == Two(first.(active := false), second).rows;
  }

  // Two entries map one path; the first shows it and gives it up, and the second shows it.
  function MapBoth(path: Path): seq<Op> {
    [Create, Create, Map(1, [path]), Map(2, [path])]
  }

  function PassOn(path: Path): seq<Op> {
    [Activate(1, [path], [path]), Deactivate(1, [path]), Activate(2, [path], [path])]
  }

  lemma RunOn(s: State, op: Op, ops: seq<Op>)
    ensures Run(s, [op] + ops) == Run(Step(s, op), ops)
    ensures MapsFreshPaths(s, [op] + ops) <==>
      (op.Map? ==> Fresh(s.db.files, op.id, op.files, 0)) && MapsFreshPaths(Step(s, op), ops)
  {
    assert ([op] + ops)[1..] == ops;
  }

  lemma AfterMapBoth(path: Path, ops: seq<Op>)
    ensures var files := Two(Row(1, path, None, false), Row(2, path, None, false));
      var s := State(Database({1, 2}, 2, files), None);
      && Run(EMPTY, MapBoth(path) + ops) == Run(s, ops)
      && (MapsFreshPaths(EMPTY, MapBoth(path) + ops) <==> MapsFreshPaths(s, ops))
  {
    hide MapFrom, Two, Run, MapsFreshPaths, Insert;
    var nothing := Table(map[], 0);
    var once := MapFrom(nothing, 1, [path], 0);
    MapTwo(1, 2, path);
    MapsOnce(1, 2, path);
    var first, second := Map(1, [path]), Map(2, [path]);
    var one, two := State(Database({1}, 1, nothing), None), State(Database({1, 2}, 2, nothing), None);
    var three := State(Database({1, 2}, 2, once), None);
    assert Step(EMPTY, Create) == one && Step(one, Create) == two && Step(two, first) == three;
    assert MapBoth(path) + ops == [Create] + ([Create] + ([first] + ([second] + ops)));
    RunOn(EMPTY, Create, [Create] + ([first] + ([second] + ops)));
    RunOn(one, Create, [first] + ([second] + ops));
    RunOn(two, first, [second] + ops);
    RunOn(three, second, ops);
  }

  // Both maps are of a fresh path.
  lemma MapsOnce(a: EntryId, b: EntryId, path: Path)
    requires a != b
    ensures var nothing := Table(map[], 0);
      Fresh(nothing, a, [path], 0) && Fresh(MapFrom(nothing, a, [path], 0), b, [path], 0)
  {
    OneFile(Table(map[], 0), a, path);
  }

  lemma AfterPassOn(s: State, path: Path)
    requires s.db.files == Two(Row(1, path, None, false), Row(2, path, None, false))
    ensures MapsFreshPaths(s, PassOn(path))
    ensures Run(s, PassOn(path)).db.files == Two(Row(1, path, Some(path), false), Row(2, path, Some(path), true))
  {
    hide ActivateFrom, DeactivateFrom, Two, Run, MapsFreshPaths;
    var first, second := Row(1, path, None, false), Row(2, path, None, false);
    ActivateFirst(first, second, path);
    DeactivateFirst(first.(actual := Some(path), active := true), second, path);
    ActivateSecond(first.(actual := Some(path)), second, path);
    var a, b, c := Activate(1, [path], [path]), Deactivate(1, [path]), Activate(2, [path], [path]);
    assert PassOn(path) == [a] + ([b] + ([c] + []));
    RunOn(s, a, [b] + ([c] + []));
    RunOn(Step(s, a), b, [c] + []);
    RunOn(Step(Step(s, a), b), c, []);
    EmptyRun(Step(Step(Step(s, a), b), c));
  }

  lemma EmptyRun(s: State)
    ensures Run(s, []) == s && MapsFreshPaths(s, [])
  {
  }

  // After such a run the first entry's deactivation succeeds and changes nothing.
  lemma StaleDeactivationIsReached(path: Path)
    ensures var ops := MapBoth(path) + PassOn(path);
      var t := Run(EMPTY, ops).db.files;
      && MapsFreshPaths(EMPTY, ops)
      && Owns(t, 2, path) && !Owns(t, 1, path)
      && DeactivateFrom(t, 1, [path], 0) == (t, Success)
  {
    hide Run, MapsFreshPaths, DeactivateFrom;
    var ops := MapBoth(path) + PassOn(path);
    AfterMapBoth(path, PassOn(path));
    var files := Two(Row(1, path, None, false), Row(2, path, None, false));
    AfterPassOn(State(Database({1, 2}, 2, files), None), path);
    var t := Run(EMPTY, ops).db.files;
    assert ActiveAs(t.rows[1], path) && ShownAs(t.rows[0], 1, path);
    assert NoSharing(t);
    StaleDeactivationSucceeds(t, 1, path, 2);
  }

  // ----- entry numbers

  predicate Counts(db: Database) {
    forall id :: id in db.ports ==> 0 < id <= db.lastPort
  }

  // Deleting an entry takes it, and no other, out of the registry.
  lemma DeleteTakesOne(db: Database, id: EntryId, other: EntryId)
    ensures var after := Change(db, Delete(id));
      && (other in after.ports <==> other in db.ports && other != id)
      && after.lastPort == db.lastPort
      && after.files == if id in db.ports then DeleteEntry(db.files, id) else db.files
  {
  }

  // Over every run, the number that the next Create gives is no entry's.
  lemma {:induction false} CreateIsFresh(s: State, ops: seq<Op>)
    requires Counts(s.db) && (s.saved.Some? ==> Counts(s.saved.value))
    ensures var db := Run(s, ops).db;
      && Counts(db) && db.lastPort + 1 !in db.ports
      && Change(db, Create).ports == db.ports + {db.lastPort + 1} && Change(db, Create).files == db.files
    decreases |ops|
  {
    if ops != [] {
      CreateIsFresh(Step(s, ops[0]), ops[1..]);
    }
  }

  predicate Ends(op: Op) {
    op.Commit? || op.Rollback?
  }

  lemma {:induction false} TransactionKeepsSaved(s: State, ops: seq<Op>)
    requires s.saved.Some? && forall op :: op in ops ==> !Ends(op)
    ensures Run(s, ops).saved == s.saved
    decreases |ops|
  {
    hide Change;
    if ops != [] {
      assert ops[0] in ops;
      TransactionKeepsSaved(Step(s, ops[0]), ops[1..]);
    }
  }

  // Whatever a transaction did, rolling it back restores the entries and the files of its beginning.
  lemma RollbackRestores(s: State, ops: seq<Op>)
    requires s.saved.None? && forall op :: op in ops ==> !Ends(op)
    ensures Step(Run(Step(s, Begin), ops), Rollback) == s
  {
    TransactionKeepsSaved(Step(s, Begin), ops);
  }

  // Committing keeps what the operations did, as if there had been no transaction.
  lemma {:induction false} CommitKeeps(s: State, t: State, ops: seq<Op>)
    requires s.db == t.db && t.saved.Some? && forall op :: op in ops ==> !Ends(op) && !op.Begin?
    ensures Run(s, ops).db == Run(t, ops).db
    decreases |ops|
  {
    hide Change;
    if ops != [] {
      assert ops[0] in ops;
      CommitKeeps(Step(s, ops[0]), Step(t, ops[0]), ops[1..]);
    }
  }
}
