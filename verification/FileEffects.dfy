// What the operations on the files table do to each row, and to no other.
module FileEffects {
  import opened CTypes
  import opened FilesTable
  import opened FileOwnership

  // ----- statements

  lemma InsertRows(t: Table, id: EntryId, path: Path, k: RowId)
    requires Numbered(t)
    ensures var after := Insert(t, id, path);
      && after.next == t.next + 1
      && (k in after.rows <==> k in t.rows || k == t.next)
      && (k in t.rows ==> after.rows[k] == t.rows[k])
      && after.rows[t.next] == Row(id, path, None, false)
  {
  }

  lemma DeletePathRows(t: Table, id: EntryId, path: Path, k: RowId)
    ensures var after := DeletePath(t, id, path);
      && after.next == t.next
      && (k in after.rows <==> k in t.rows && !(t.rows[k].id == id && t.rows[k].path == path))
      && (k in after.rows ==> after.rows[k] == t.rows[k])
  {
  }

  // The files of other entries stay.
  lemma DeleteEntryRows(t: Table, id: EntryId, k: RowId)
    ensures var after := DeleteEntry(t, id);
      && after.next == t.next
      && (k in after.rows <==> k in t.rows && t.rows[k].id != id)
      && (k in after.rows ==> after.rows[k] == t.rows[k])
  {
  }

  lemma SetActiveRows(t: Table, id: EntryId, path: Path, actual: Path, k: RowId)
    ensures var after := SetActive(t, id, path, actual);
      && after.next == t.next
      && (k in after.rows <==> k in t.rows)
      && (k in t.rows ==>
            after.rows[k] ==
            if t.rows[k].id == id && t.rows[k].path == path then Row(id, path, Some(actual), true) else t.rows[k])
  {
  }

  lemma ClearActiveRows(t: Table, id: EntryId, actual: Path, k: RowId)
    ensures var after := ClearActive(t, id, actual);
      && after.next == t.next
      && (k in after.rows <==> k in t.rows)
      && (k in t.rows ==>
            after.rows[k] ==
            if t.rows[k].id == id && t.rows[k].actual == Some(actual) then Row(id, t.rows[k].path, Some(actual), false)
            else t.rows[k])
  {
  }

  // What the owner query finds.
  lemma OwnsExactly(t: Table, id: EntryId, actual: Path)
    ensures Owns(t, id, actual) <==>
      exists k :: k in t.rows && t.rows[k].id == id && t.rows[k].active && t.rows[k].actual == Some(actual)
    ensures IsMapped(t, id, actual) <==> exists k :: k in t.rows && t.rows[k].id == id && t.rows[k].path == actual
    ensures IsShown(t, id, actual) <==>
      exists k :: k in t.rows && t.rows[k].id == id && t.rows[k].actual == Some(actual)
    ensures IsUsed(t, actual) <==> exists k :: k in t.rows && t.rows[k].active && t.rows[k].actual == Some(actual)
  {
    if k :| k in t.rows && t.rows[k].id == id && t.rows[k].active && t.rows[k].actual == Some(actual) {
      assert ActiveAs(t.rows[k], actual);
    }
    if k :| k in t.rows && t.rows[k].id == id && t.rows[k].path == actual {
      assert Maps(t.rows[k], id, actual);
    }
    if k :| k in t.rows && t.rows[k].id == id && t.rows[k].actual == Some(actual) {
      assert ShownAs(t.rows[k], id, actual);
    }
    if k :| k in t.rows && t.rows[k].active && t.rows[k].actual == Some(actual) {
      assert ActiveAs(t.rows[k], actual);
    }
  }

  // ----- deleting an entry

  // Afterwards exactly the other entries own what they owned.
  lemma DeleteEntryKeepsOthers(t: Table, id: EntryId, owner: EntryId, actual: Path)
    ensures Owns(DeleteEntry(t, id), owner, actual) <==> owner != id && Owns(t, owner, actual)
  {
    if owner != id && Owns(t, owner, actual) {
      var k :| k in t.rows && t.rows[k].id == owner && ActiveAs(t.rows[k], actual);
      assert k in DeleteEntry(t, id).rows;
    }
  }

  // ----- mapping

  // Every listed file gets a new row, in order, and the rows that are there stay.
  lemma {:induction false} MapRows(t: Table, id: EntryId, files: seq<Path>, i: nat, k: RowId)
    requires i <= |files| && Numbered(t)
    ensures var after := MapFrom(t, id, files, i);
      && after.next == t.next + (|files| - i)
      && (k in after.rows <==> k in t.rows || t.next <= k < after.next)
      && (k in t.rows ==> after.rows[k] == t.rows[k])
      && (t.next <= k < after.next ==> after.rows[k] == Row(id, files[i + (k - t.next)], None, false))
    decreases |files| - i
  {
    hide Insert;
    if i < |files| {
      InsertRows(t, id, files[i], k);
      InsertRows(t, id, files[i], t.next);
      assert Numbered(Insert(t, id, files[i])) by { InsertIsNumbered(t, id, files[i]); }
      MapRows(Insert(t, id, files[i]), id, files, i + 1, k);
    }
  }

  lemma InsertIsNumbered(t: Table, id: EntryId, path: Path)
    requires Numbered(t)
    ensures Numbered(Insert(t, id, path))
  {
  }

  // ----- unmapping

  // A file is among those from i up to before stop.
  predicate Listed(files: seq<Path>, i: nat, stop: nat, path: Path) {
    stop <= |files| && exists j :: i <= j < stop && files[j] == path
  }

  // The first file that an unmap does not get past.
  function UnmapStopsAt(t: Table, id: EntryId, files: seq<Path>, i: nat): (stop: nat)
    requires i <= |files|
    ensures i <= stop <= |files|
    decreases |files| - i
  {
    if i == |files| || !IsMapped(t, id, files[i]) then i
    else UnmapStopsAt(DeletePath(t, id, files[i]), id, files, i + 1)
  }

  // Exactly the rows of the entry for the files it got through are gone, and every other row stays.
  lemma {:induction false} UnmapRows(t: Table, id: EntryId, files: seq<Path>, i: nat, k: RowId)
    requires i <= |files|
    ensures var (after, result) := UnmapFrom(t, id, files, i);
      var stop := UnmapStopsAt(t, id, files, i);
      && after.next == t.next
      && (k in after.rows <==> k in t.rows && !(t.rows[k].id == id && Listed(files, i, stop, t.rows[k].path)))
      && (k in after.rows ==> after.rows[k] == t.rows[k])
      && result == if stop == |files| then Success else NotOwned(files[stop])
    decreases |files| - i
  {
    hide DeletePath, IsMapped;
    if i < |files| && IsMapped(t, id, files[i]) {
      DeletePathRows(t, id, files[i], k);
      UnmapRows(DeletePath(t, id, files[i]), id, files, i + 1, k);
    }
  }

  // An unmap succeeds exactly if every listed file is mapped and none is listed twice.
  lemma {:induction false} UnmapSucceedsExactly(t: Table, id: EntryId, files: seq<Path>, i: nat)
    requires i <= |files|
    ensures UnmapFrom(t, id, files, i).1 == Success <==>
      (forall j :: i <= j < |files| ==> IsMapped(t, id, files[j])) && DistinctFrom(files, i)
    decreases |files| - i
  {
    hide DeletePath, IsMapped;
    if i < |files| && IsMapped(t, id, files[i]) {
      var next := DeletePath(t, id, files[i]);
      forall j | i < j < |files|
        ensures IsMapped(next, id, files[j]) <==> IsMapped(t, id, files[j]) && files[j] != files[i]
      {
        MappedAfterDelete(t, id, files[i], files[j]);
      }
      UnmapSucceedsExactly(next, id, files, i + 1);
    }
  }

  lemma MappedAfterDelete(t: Table, id: EntryId, path: Path, other: Path)
    ensures IsMapped(DeletePath(t, id, path), id, other) <==> IsMapped(t, id, other) && other != path
  {
    if IsMapped(t, id, other) && other != path {
      var k :| k in t.rows && Maps(t.rows[k], id, other);
      assert k in DeletePath(t, id, path).rows;
    }
  }

  // ----- activating

  // After a successful activation of different files, the rows of the entry for them are active as listed, and every
  // other row stays.
  lemma {:induction false} ActivateRows(t: Table, id: EntryId, files: seq<Path>, asFiles: seq<Path>, i: nat, k: RowId)
    requires i <= |files| == |asFiles| && DistinctFrom(files, i)
    requires ActivateFrom(t, id, files, asFiles, i).1 == Success
    ensures var after := ActivateFrom(t, id, files, asFiles, i).0;
      && after.next == t.next
      && (k in after.rows <==> k in t.rows)
      && (k in t.rows && !(t.rows[k].id == id && Listed(files, i, |files|, t.rows[k].path)) ==>
            after.rows[k] == t.rows[k])
      && forall j :: i <= j < |files| && k in t.rows && t.rows[k].id == id && t.rows[k].path == files[j] ==>
           after.rows[k] == Row(id, files[j], Some(asFiles[j]), true)
    decreases |files| - i
  {
    hide SetActive, IsMapped, IsUsed;
    if i < |files| {
      SetActiveRows(t, id, files[i], asFiles[i], k);
      ActivateRows(SetActive(t, id, files[i], asFiles[i]), id, files, asFiles, i + 1, k);
    }
  }

  // One that fails names the first file whose target is used, or that is not mapped, when its turn comes.
  lemma ActivationFails(t: Table, id: EntryId, files: seq<Path>, asFiles: seq<Path>, i: nat)
    requires i < |files| == |asFiles|
    ensures IsUsed(t, asFiles[i]) ==> ActivateFrom(t, id, files, asFiles, i) == (t, AlreadyActive(files[i]))
    ensures !IsUsed(t, asFiles[i]) && !IsMapped(t, id, files[i]) ==>
      ActivateFrom(t, id, files, asFiles, i) == (t, NotProvided(files[i]))
  {
  }
}
