// The files table of the registry, and what each statement and each file list makes of it.
module FilesTable {
  import opened CTypes

  type EntryId = nat
  type Path = string
  type RowId = nat

  // actual is the path a file was last activated as; it outlives a deactivation.
  datatype Row = Row(id: EntryId, path: Path, actual: Option<Path>, active: bool)

  // Rows by row number; next is a number that no row has yet.
  datatype Table = Table(rows: map<RowId, Row>, next: RowId)

  datatype Result =
    | Success
    | AlreadyActive(file: Path)
    | NotProvided(file: Path)
    | NotOwned(file: Path)
    | InvalidEntry
    | Misuse

  predicate Numbered(t: Table) {
    forall k :: k in t.rows ==> k < t.next
  }

  // INSERT INTO files (id, path, mtime, active) VALUES (?, ?, 0, 0)
  function Insert(t: Table, id: EntryId, path: Path): Table {
    Table(t.rows[t.next := Row(id, path, None, false)], t.next + 1)
  }

  predicate Maps(row: Row, id: EntryId, path: Path) {
    row.id == id && row.path == path
  }

  predicate ShownAs(row: Row, id: EntryId, actual: Path) {
    row.id == id && row.actual == Some(actual)
  }

  predicate ActiveAs(row: Row, actual: Path) {
    row.active && row.actual == Some(actual)
  }

  // DELETE FROM files WHERE path=? AND id=?
  function DeletePath(t: Table, id: EntryId, path: Path): Table {
    t.(rows := map k | k in t.rows && !Maps(t.rows[k], id, path) :: t.rows[k])
  }

  // DELETE FROM files WHERE id=?
  function DeleteEntry(t: Table, id: EntryId): Table {
    t.(rows := map k | k in t.rows && t.rows[k].id != id :: t.rows[k])
  }

  // UPDATE files SET actual_path=?, active=1 WHERE path=? AND id=?
  function SetActive(t: Table, id: EntryId, path: Path, actual: Path): Table {
    t.(rows := map k | k in t.rows ::
      if Maps(t.rows[k], id, path) then t.rows[k].(actual := Some(actual), active := true) else t.rows[k])
  }

  // UPDATE files SET active=0 WHERE actual_path=? AND id=?
  function ClearActive(t: Table, id: EntryId, actual: Path): Table {
    t.(rows := map k | k in t.rows ::
      if ShownAs(t.rows[k], id, actual) then t.rows[k].(active := false) else t.rows[k])
  }

  predicate IsMapped(t: Table, id: EntryId, path: Path) {
    exists k :: k in t.rows && Maps(t.rows[k], id, path)
  }

  predicate IsShown(t: Table, id: EntryId, actual: Path) {
    exists k :: k in t.rows && ShownAs(t.rows[k], id, actual)
  }

  predicate IsUsed(t: Table, actual: Path) {
    exists k :: k in t.rows && ActiveAs(t.rows[k], actual)
  }

  // sqlite3_changes after a DELETE or an UPDATE of the rows of a path.
  function ChangesOfPath(t: Table, id: EntryId, path: Path): (n: nat)
    ensures n == 0 <==> !IsMapped(t, id, path)
  {
    var hit := set k | k in t.rows && Maps(t.rows[k], id, path);
    assert forall k :: k in hit <==> k in t.rows && Maps(t.rows[k], id, path);
    assert |hit| == 0 <==> forall k :: k !in hit;
    |hit|
  }

  function ChangesOfActual(t: Table, id: EntryId, actual: Path): (n: nat)
    ensures n == 0 <==> !IsShown(t, id, actual)
  {
    var hit := set k | k in t.rows && ShownAs(t.rows[k], id, actual);
    assert forall k :: k in hit <==> k in t.rows && ShownAs(t.rows[k], id, actual);
    assert |hit| == 0 <==> forall k :: k !in hit;
    |hit|
  }

  // A statement without matching rows changes nothing.
  lemma NoMatchNoChange(t: Table, id: EntryId, path: Path, actual: Path)
    ensures !IsMapped(t, id, path) ==> DeletePath(t, id, path) == t && SetActive(t, id, path, actual) == t
    ensures !IsShown(t, id, path) ==> ClearActive(t, id, path) == t
  {
    if !IsMapped(t, id, path) {
      assert DeletePath(t, id, path).rows == t.rows;
      assert SetActive(t, id, path, actual).rows == t.rows;
    }
    if !IsShown(t, id, path) {
      assert ClearActive(t, id, path).rows == t.rows;
    }
  }

  // The list operations, from file i on; each stops at the first file that fails and keeps what is done.
  function MapFrom(t: Table, id: EntryId, files: seq<Path>, i: nat): Table
    requires i <= |files|
    decreases |files| - i
  {
    if i == |files| then t else MapFrom(Insert(t, id, files[i]), id, files, i + 1)
  }

  function UnmapFrom(t: Table, id: EntryId, files: seq<Path>, i: nat): (Table, Result)
    requires i <= |files|
    decreases |files| - i
  {
    if i == |files| then (t, Success)
    else if !IsMapped(t, id, files[i]) then (t, NotOwned(files[i]))
    else UnmapFrom(DeletePath(t, id, files[i]), id, files, i + 1)
  }

  function ActivateFrom(t: Table, id: EntryId, files: seq<Path>, asFiles: seq<Path>, i: nat): (Table, Result)
    requires i <= |files| == |asFiles|
    decreases |files| - i
  {
    if i == |files| then (t, Success)
    else if IsUsed(t, asFiles[i]) then (t, AlreadyActive(files[i]))
    else if !IsMapped(t, id, files[i]) then (t, NotProvided(files[i]))
    else ActivateFrom(SetActive(t, id, files[i], asFiles[i]), id, files, asFiles, i + 1)
  }

  function DeactivateFrom(t: Table, id: EntryId, files: seq<Path>, i: nat): (Table, Result)
    requires i <= |files|
    decreases |files| - i
  {
    if i == |files| then (t, Success)
    else if !IsShown(t, id, files[i]) then (t, NotOwned(files[i]))
    else DeactivateFrom(ClearActive(t, id, files[i]), id, files, i + 1)
  }

  // No entry maps a path twice.
  predicate MappedOnce(t: Table) {
    forall j, k :: j in t.rows && k in t.rows && j != k ==> !Maps(t.rows[j], t.rows[k].id, t.rows[k].path)
  }

  // No two active files are shown as the same path, and every active file is shown somewhere.
  predicate NoSharing(t: Table) {
    && (forall k :: k in t.rows && t.rows[k].active ==> t.rows[k].actual.Some?)
    && (forall j, k :: j in t.rows && k in t.rows && j != k && t.rows[j].active && t.rows[k].active ==>
          t.rows[j].actual != t.rows[k].actual)
  }

  predicate Sound(t: Table) {
    Numbered(t) && MappedOnce(t) && NoSharing(t)
  }

  // The entry that owns a path: it has an active file there.
  predicate Owns(t: Table, id: EntryId, actual: Path) {
    exists k :: k in t.rows && t.rows[k].id == id && ActiveAs(t.rows[k], actual)
  }

  // What reg_entry_map asks of its callers, from file i on.
  predicate Fresh(t: Table, id: EntryId, files: seq<Path>, i: nat) {
    && (forall j :: i <= j < |files| ==> !IsMapped(t, id, files[j]))
    && DistinctFrom(files, i)
  }

  predicate DistinctFrom(files: seq<Path>, i: nat) {
    forall j, k :: i <= j < k < |files| ==> files[j] != files[k]
  }
}
