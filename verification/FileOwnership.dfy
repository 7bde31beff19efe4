// File ownership: what every operation on the files table keeps, and what activation achieves.
module FileOwnership {
  import opened FilesTable

  lemma InsertKeeps(t: Table, id: EntryId, path: Path)
    requires Sound(t) && !IsMapped(t, id, path)
    ensures Sound(Insert(t, id, path))
    ensures forall p :: IsMapped(Insert(t, id, path), id, p) <==> IsMapped(t, id, p) || p == path
  {
    var after := Insert(t, id, path);
    forall p
      ensures IsMapped(after, id, p) <==> IsMapped(t, id, p) || p == path
    {
      if IsMapped(t, id, p) {
        var k :| k in t.rows && Maps(t.rows[k], id, p);
        assert k in after.rows && Maps(after.rows[k], id, p);
      }
      if p == path {
        assert Maps(after.rows[t.next], id, p);
      }
    }
  }

  lemma {:induction false} MapKeeps(t: Table, id: EntryId, files: seq<Path>, i: nat)
    requires Sound(t) && i <= |files| && Fresh(t, id, files, i)
    ensures Sound(MapFrom(t, id, files, i))
    decreases |files| - i
  {
    hide Sound, IsMapped, Insert;
    if i < |files| {
      InsertKeeps(t, id, files[i]);
      MapKeeps(Insert(t, id, files[i]), id, files, i + 1);
    }
  }

  lemma DeletePathKeeps(t: Table, id: EntryId, path: Path)
    requires Sound(t)
    ensures Sound(DeletePath(t, id, path)) && !IsMapped(DeletePath(t, id, path), id, path)
  {
  }

  lemma DeleteEntryKeeps(t: Table, id: EntryId)
    requires Sound(t)
    ensures Sound(DeleteEntry(t, id)) && forall p :: !IsMapped(DeleteEntry(t, id), id, p)
  {
  }

  lemma SetActiveKeeps(t: Table, id: EntryId, path: Path, actual: Path)
    requires Sound(t) && !IsUsed(t, actual)
    ensures Sound(SetActive(t, id, path, actual))
  {
  }

  lemma ClearActiveKeeps(t: Table, id: EntryId, actual: Path)
    requires Sound(t)
    ensures Sound(ClearActive(t, id, actual))
  {
  }

  lemma {:induction false} UnmapKeeps(t: Table, id: EntryId, files: seq<Path>, i: nat)
    requires Sound(t) && i <= |files|
    ensures Sound(UnmapFrom(t, id, files, i).0)
    decreases |files| - i
  {
    hide Sound, DeletePath;
    if i < |files| && IsMapped(t, id, files[i]) {
      DeletePathKeeps(t, id, files[i]);
      UnmapKeeps(DeletePath(t, id, files[i]), id, files, i + 1);
    }
  }

  // Also when it stops partway.
  lemma {:induction false} ActivateKeeps(t: Table, id: EntryId, files: seq<Path>, asFiles: seq<Path>, i: nat)
    requires Sound(t) && i <= |files| == |asFiles|
    ensures Sound(ActivateFrom(t, id, files, asFiles, i).0)
    decreases |files| - i
  {
    hide Sound, SetActive;
    if i < |files| && !IsUsed(t, asFiles[i]) && IsMapped(t, id, files[i]) {
      SetActiveKeeps(t, id, files[i], asFiles[i]);
      ActivateKeeps(SetActive(t, id, files[i], asFiles[i]), id, files, asFiles, i + 1);
    }
  }

  lemma {:induction false} DeactivateKeeps(t: Table, id: EntryId, files: seq<Path>, i: nat)
    requires Sound(t) && i <= |files|
    ensures Sound(DeactivateFrom(t, id, files, i).0)
    decreases |files| - i
  {
    hide Sound, ClearActive;
    if i < |files| && IsShown(t, id, files[i]) {
      ClearActiveKeeps(t, id, files[i]);
      DeactivateKeeps(ClearActive(t, id, files[i]), id, files, i + 1);
    }
  }

  predicate OwnsAll(t: Table, id: EntryId, files: seq<Path>) {
    forall j :: 0 <= j < |files| ==> Owns(t, id, files[j])
  }

  // Every path has at most one owner.
  lemma OwnerIsUnique(t: Table, a: EntryId, b: EntryId, actual: Path)
    requires NoSharing(t) && Owns(t, a, actual) && Owns(t, b, actual)
    ensures a == b
  {
  }

  predicate MapsAtMostOnce(t: Table, id: EntryId, path: Path) {
    forall j, k :: j in t.rows && k in t.rows && j != k ==> !(Maps(t.rows[j], id, path) && Maps(t.rows[k], id, path))
  }

  // One UPDATE shares its target exactly when two rows match.
  lemma OneUpdateSharesExactly(t: Table, id: EntryId, path: Path, actual: Path)
    requires NoSharing(t) && !IsUsed(t, actual)
    ensures NoSharing(SetActive(t, id, path, actual)) <==> MapsAtMostOnce(t, id, path)
  {
    var after := SetActive(t, id, path, actual);
    if j, k :| j in t.rows && k in t.rows && j != k && Maps(t.rows[j], id, path) && Maps(t.rows[k], id, path) {
      assert after.rows[j].active && after.rows[k].active && after.rows[j].actual == after.rows[k].actual;
    }
  }

  lemma MapsAfterSetActive(t: Table, id: EntryId, path: Path, actual: Path, other: Path)
    ensures MapsAtMostOnce(SetActive(t, id, path, actual), id, other) <==> MapsAtMostOnce(t, id, other)
  {
    var after := SetActive(t, id, path, actual);
    assert forall k :: k in after.rows <==> k in t.rows;
    assert forall k :: k in t.rows ==> (Maps(after.rows[k], id, other) <==> Maps(t.rows[k], id, other));
  }

  // The first file that an activation does not get past.
  function StopsAt(t: Table, id: EntryId, files: seq<Path>, asFiles: seq<Path>, i: nat): (stop: nat)
    requires i <= |files| == |asFiles|
    ensures i <= stop <= |files|
    ensures stop == |files| <==> ActivateFrom(t, id, files, asFiles, i).1 == Success
    decreases |files| - i
  {
    if i == |files| || IsUsed(t, asFiles[i]) || !IsMapped(t, id, files[i]) then i
    else StopsAt(SetActive(t, id, files[i], asFiles[i]), id, files, asFiles, i + 1)
  }

  // Two rows of one path that are active are updated together, so they share ever after.
  lemma {:induction false} SharedStays(t: Table, id: EntryId, files: seq<Path>, asFiles: seq<Path>, i: nat, path: Path)
    requires i <= |files| == |asFiles| && !MapsAtMostOnce(t, id, path)
    requires forall k :: k in t.rows && Maps(t.rows[k], id, path) ==> t.rows[k].active
    requires forall j, k :: j in t.rows && k in t.rows && Maps(t.rows[j], id, path) && Maps(t.rows[k], id, path) ==>
      t.rows[j].actual == t.rows[k].actual
    ensures !NoSharing(ActivateFrom(t, id, files, asFiles, i).0)
    decreases |files| - i
  {
    hide IsUsed, IsMapped;
    if i < |files| && !IsUsed(t, asFiles[i]) && IsMapped(t, id, files[i]) {
      MapsAfterSetActive(t, id, files[i], asFiles[i], path);
      SharedStays(SetActive(t, id, files[i], asFiles[i]), id, files, asFiles, i + 1, path);
    }
  }

  // Mapping a path once is what keeps owners apart: an activation leads to sharing exactly when one of the files it got
  // through is mapped twice.
  lemma {:induction false} SharingExactly(t: Table, id: EntryId, files: seq<Path>, asFiles: seq<Path>, i: nat)
    requires NoSharing(t) && i <= |files| == |asFiles|
    ensures NoSharing(ActivateFrom(t, id, files, asFiles, i).0) <==>
      forall j :: i <= j < StopsAt(t, id, files, asFiles, i) ==> MapsAtMostOnce(t, id, files[j])
    decreases |files| - i
  {
    hide NoSharing, IsUsed, IsMapped, MapsAtMostOnce, SetActive;
    if i < |files| && !IsUsed(t, asFiles[i]) && IsMapped(t, id, files[i]) {
      var next := SetActive(t, id, files[i], asFiles[i]);
      if MapsAtMostOnce(t, id, files[i]) {
        OneUpdateSharesExactly(t, id, files[i], asFiles[i]);
        forall j | i < j < |files|
          ensures MapsAtMostOnce(next, id, files[j]) <==> MapsAtMostOnce(t, id, files[j])
        {
          MapsAfterSetActive(t, id, files[i], asFiles[i], files[j]);
        }
        SharingExactly(next, id, files, asFiles, i + 1);
      } else {
        UpdatedTogether(t, id, files[i], asFiles[i]);
        SharedStays(next, id, files, asFiles, i + 1, files[i]);
      }
    }
  }

  lemma UpdatedTogether(t: Table, id: EntryId, path: Path, actual: Path)
    requires !MapsAtMostOnce(t, id, path)
    ensures var after := SetActive(t, id, path, actual);
      && !MapsAtMostOnce(after, id, path)
      && (forall k :: k in after.rows && Maps(after.rows[k], id, path) ==> after.rows[k].active)
      && forall j, k :: (j in after.rows && k in after.rows && Maps(after.rows[j], id, path) &&
                         Maps(after.rows[k], id, path)) ==> after.rows[j].actual == after.rows[k].actual
  {
    MapsAfterSetActive(t, id, path, actual, path);
  }

  // A caller who maps a path twice to one entry gets two active rows for one path.
  lemma MappingTwiceShares()
    ensures var empty := Table(map[], 0);
      var twice := MapFrom(empty, 1, ["/a", "/a"], 0);
      var (after, result) := ActivateFrom(twice, 1, ["/a"], ["/a"], 0);
      Sound(empty) && result == Success && !NoSharing(after)
  {
    var empty := Table(map[], 0);
    var files := ["/a", "/a"];
    var once := Insert(empty, 1, "/a");
    var twice := Insert(once, 1, "/a");
    assert MapFrom(empty, 1, files, 0) == MapFrom(once, 1, files, 1) == MapFrom(twice, 1, files, 2) == twice;
    assert !IsUsed(twice, "/a");
    assert Maps(twice.rows[0], 1, "/a") && Maps(twice.rows[1], 1, "/a");
    assert IsMapped(twice, 1, "/a");
    var after := SetActive(twice, 1, "/a", "/a");
    assert ActivateFrom(twice, 1, ["/a"], ["/a"], 0) == ActivateFrom(after, 1, ["/a"], ["/a"], 1) == (after, Success);
    assert after.rows[0].active && after.rows[1].active && after.rows[0].actual == after.rows[1].actual;
  }

  // Activation changes only rows of the entry and of the listed files.
  lemma {:induction false} ActivateFrame(t: Table, id: EntryId, files: seq<Path>, asFiles: seq<Path>, i: nat, k: RowId)
    requires i <= |files| == |asFiles| && k in t.rows
    requires forall j :: i <= j < |files| ==> !Maps(t.rows[k], id, files[j])
    ensures k in ActivateFrom(t, id, files, asFiles, i).0.rows
    ensures ActivateFrom(t, id, files, asFiles, i).0.rows[k] == t.rows[k]
    decreases |files| - i
  {
    hide IsUsed, IsMapped;
    if i < |files| && !IsUsed(t, asFiles[i]) && IsMapped(t, id, files[i]) {
      ActivateFrame(SetActive(t, id, files[i], asFiles[i]), id, files, asFiles, i + 1, k);
    }
  }

  // After a successful activation of different files the entry owns every target.
  lemma {:induction false} ActivationOwns(t: Table, id: EntryId, files: seq<Path>, asFiles: seq<Path>, i: nat, j: nat)
    requires i <= j < |files| == |asFiles| && DistinctFrom(files, i)
    requires ActivateFrom(t, id, files, asFiles, i).1 == Success
    ensures Owns(ActivateFrom(t, id, files, asFiles, i).0, id, asFiles[j])
    decreases |files| - i
  {
    hide IsUsed;
    var next := SetActive(t, id, files[i], asFiles[i]);
    if i < j {
      ActivationOwns(next, id, files, asFiles, i + 1, j);
    } else {
      var k :| k in t.rows && Maps(t.rows[k], id, files[i]);
      ActivateFrame(next, id, files, asFiles, i + 1, k);
    }
  }

  // Files that are not active yet: activation succeeds exactly when all are mapped, and no target is used or repeated.
  predicate Idle(t: Table, id: EntryId, files: seq<Path>, i: nat) {
    forall k, j :: k in t.rows && i <= j < |files| && Maps(t.rows[k], id, files[j]) ==> !t.rows[k].active
  }

  lemma UsedAfterSetActive(t: Table, id: EntryId, path: Path, actual: Path, other: Path)
    requires IsMapped(t, id, path) && forall k :: k in t.rows && Maps(t.rows[k], id, path) ==> !t.rows[k].active
    ensures IsUsed(SetActive(t, id, path, actual), other) <==> IsUsed(t, other) || other == actual
  {
    var after := SetActive(t, id, path, actual);
    if IsUsed(t, other) {
      var k :| k in t.rows && ActiveAs(t.rows[k], other);
      assert k in after.rows && ActiveAs(after.rows[k], other);
    }
    if other == actual {
      var k :| k in t.rows && Maps(t.rows[k], id, path);
      assert k in after.rows && ActiveAs(after.rows[k], other);
    }
  }

  lemma MappedAfterSetActive(t: Table, id: EntryId, path: Path, actual: Path, other: Path)
    ensures IsMapped(SetActive(t, id, path, actual), id, other) <==> IsMapped(t, id, other)
  {
    var after := SetActive(t, id, path, actual);
    if IsMapped(t, id, other) {
      var k :| k in t.rows && Maps(t.rows[k], id, other);
      assert k in after.rows && Maps(after.rows[k], id, other);
    }
  }

  lemma {:induction false} ActivationSucceedsExactly(t: Table, id: EntryId, files: seq<Path>, asFiles: seq<Path>, i: nat)
    requires i <= |files| == |asFiles| && DistinctFrom(files, i) && Idle(t, id, files, i)
    ensures ActivateFrom(t, id, files, asFiles, i).1 == Success <==>
      && (forall j :: i <= j < |files| ==> IsMapped(t, id, files[j]) && !IsUsed(t, asFiles[j]))
      && DistinctFrom(asFiles, i)
    decreases |files| - i
  {
    hide IsUsed, IsMapped;
    if i < |files| && !IsUsed(t, asFiles[i]) && IsMapped(t, id, files[i]) {
      var next := SetActive(t, id, files[i], asFiles[i]);
      forall j | i < j < |files|
        ensures IsMapped(next, id, files[j]) <==> IsMapped(t, id, files[j])
        ensures IsUsed(next, asFiles[j]) <==> IsUsed(t, asFiles[j]) || asFiles[j] == asFiles[i]
      {
        MappedAfterSetActive(t, id, files[i], asFiles[i], files[j]);
        UsedAfterSetActive(t, id, files[i], asFiles[i], asFiles[j]);
      }
      ActivationSucceedsExactly(next, id, files, asFiles, i + 1);
    }
  }

  // What a deactivation does to one row: it only ever clears the flag, of the entry's rows shown as a listed file.
  lemma {:induction false} DeactivateRow(t: Table, id: EntryId, files: seq<Path>, i: nat, k: RowId)
    requires i <= |files| && DeactivateFrom(t, id, files, i).1 == Success
    ensures DeactivateFrom(t, id, files, i).0.next == t.next
    ensures var after := DeactivateFrom(t, id, files, i).0.rows;
      && (k in after <==> k in t.rows)
      && (k in t.rows ==>
            if exists j :: i <= j < |files| && ShownAs(t.rows[k], id, files[j])
            then after[k] == t.rows[k].(active := false) else after[k] == t.rows[k])
    decreases |files| - i
  {
    hide IsShown;
    if i < |files| {
      DeactivateRow(ClearActive(t, id, files[i]), id, files, i + 1, k);
    }
  }

  // Afterwards a listed path has an owner exactly when another entry owned it before; rows of others stay as they are.
  lemma DeactivationReleases(t: Table, id: EntryId, files: seq<Path>, j: nat, owner: EntryId)
    requires j < |files| && DeactivateFrom(t, id, files, 0).1 == Success
    ensures Owns(DeactivateFrom(t, id, files, 0).0, owner, files[j]) <==> owner != id && Owns(t, owner, files[j])
  {
    var after := DeactivateFrom(t, id, files, 0).0;
    forall k: RowId
      ensures k in after.rows <==> k in t.rows
      ensures k in t.rows && t.rows[k].id != id ==> after.rows[k] == t.rows[k]
      ensures k in t.rows ==> after.rows[k].id == t.rows[k].id
      ensures k in t.rows && t.rows[k].id == id ==> !ActiveAs(after.rows[k], files[j])
    {
      DeactivateRow(t, id, files, 0, k);
    }
    if owner != id && Owns(t, owner, files[j]) {
      var k :| k in t.rows && t.rows[k].id == owner && ActiveAs(t.rows[k], files[j]);
      assert k in after.rows && ActiveAs(after.rows[k], files[j]);
    }
  }

  // A path that was shown stays shown, whether active or not: deactivation succeeds exactly when every listed path was
  // shown by the entry at some time, and otherwise names the first that was not.
  lemma {:induction false} DeactivationSucceedsExactly(t: Table, id: EntryId, files: seq<Path>, i: nat)
    requires i <= |files|
    ensures DeactivateFrom(t, id, files, i).1 == Success <==> forall j :: i <= j < |files| ==> IsShown(t, id, files[j])
    ensures forall k :: FirstNotShown(t, id, files, i, k) ==> DeactivateFrom(t, id, files, i).1 == NotOwned(files[k])
    decreases |files| - i
  {
    hide IsShown, ClearActive;
    if i < |files| && IsShown(t, id, files[i]) {
      var next := ClearActive(t, id, files[i]);
      forall j | i < j < |files|
        ensures IsShown(next, id, files[j]) <==> IsShown(t, id, files[j])
      {
        ShownAfterClearing(t, id, files[i], files[j]);
      }
      DeactivationSucceedsExactly(next, id, files, i + 1);
    }
  }

  predicate FirstNotShown(t: Table, id: EntryId, files: seq<Path>, i: nat, k: int) {
    && i <= k < |files|
    && !IsShown(t, id, files[k])
    && forall j :: i <= j < k ==> IsShown(t, id, files[j])
  }

  lemma ShownAfterClearing(t: Table, id: EntryId, actual: Path, other: Path)
    ensures IsShown(ClearActive(t, id, actual), id, other) <==> IsShown(t, id, other)
  {
    var after := ClearActive(t, id, actual);
    if IsShown(t, id, other) {
      var k :| k in t.rows && ShownAs(t.rows[k], id, other);
      assert k in after.rows && ShownAs(after.rows[k], id, other);
    }
  }

  // Success does not mean that the entry owned the paths: a path it once showed is enough.
  lemma DeactivationWithoutOwnerExactly(t: Table, id: EntryId, files: seq<Path>)
    ensures DeactivateFrom(t, id, files, 0).1 == Success && !OwnsAll(t, id, files) <==>
      && (forall j :: 0 <= j < |files| ==> IsShown(t, id, files[j]))
      && exists j :: 0 <= j < |files| && IsShown(t, id, files[j]) && !Owns(t, id, files[j])
  {
    hide IsShown, Owns;
    DeactivationSucceedsExactly(t, id, files, 0);
  }

  // A deactivation that succeeds does nothing exactly when the entry owns none of the listed paths.
  lemma DeactivationDoesNothingExactly(t: Table, id: EntryId, files: seq<Path>)
    requires DeactivateFrom(t, id, files, 0).1 == Success
    ensures DeactivateFrom(t, id, files, 0).0 == t <==> forall j :: 0 <= j < |files| ==> !Owns(t, id, files[j])
  {
    var after := DeactivateFrom(t, id, files, 0).0;
    DeactivateRow(t, id, files, 0, 0);
    forall k: RowId
      ensures k in after.rows <==> k in t.rows
      ensures k in t.rows ==>
        (after.rows[k] == t.rows[k] <==> forall j :: 0 <= j < |files| ==> !OwnedThrough(t.rows[k], id, files[j]))
    {
      DeactivateRow(t, id, files, 0, k);
    }
    if forall j :: 0 <= j < |files| ==> !Owns(t, id, files[j]) {
      assert after.rows == t.rows;
    } else if j, k :| 0 <= j < |files| && k in t.rows && OwnedThrough(t.rows[k], id, files[j]) {
      assert after.rows[k] != t.rows[k];
    }
  }

  predicate OwnedThrough(row: Row, id: EntryId, actual: Path) {
    row.id == id && ActiveAs(row, actual)
  }

  // A path that another entry owns by now: deactivating it again succeeds and changes nothing.
  lemma StaleDeactivationSucceeds(t: Table, id: EntryId, path: Path, owner: EntryId)
    requires NoSharing(t) && IsShown(t, id, path) && Owns(t, owner, path) && owner != id
    ensures DeactivateFrom(t, id, [path], 0) == (t, Success)
  {
    hide IsShown, Owns, NoSharing;
    DeactivationSucceedsExactly(t, id, [path], 0);
    DeactivationDoesNothingExactly(t, id, [path]);
    if Owns(t, id, path) {
      OwnerIsUnique(t, id, owner, path);
    }
  }
}
