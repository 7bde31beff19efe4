// The registry's entry and transaction operations, each a loop of statements over a list of files.
module Registry {
  import opened CTypes
  import opened FilesTable
  import opened FileOwnership
  import opened RegistryRuns

  class Registry {
    var ports: set<EntryId>
    var lastPort: EntryId
    var files: Table
    var transacting: bool
    // The database's own copy for a rollback.
    var saved: Database

    function Db(): Database
      reads this
    {
      Database(ports, lastPort, files)
    }

    function Current(): State
      reads this
    {
      State(Db(), if transacting then Some(saved) else None)
    }

    constructor ()
      ensures Current() == EMPTY
    {
      ports, lastPort, files := {}, 0, Table(map[], 0);
      transacting, saved := false, Database({}, 0, Table(map[], 0));
    }

    method EntryCreate() returns (id: EntryId)
      modifies this
      ensures Current() == Step(old(Current()), Create)
      ensures id in ports && id == lastPort
    {
      lastPort := lastPort + 1;
      ports := ports + {lastPort};
      id := lastPort;
    }

    method EntryDelete(id: EntryId) returns (result: Result)
      modifies this
      ensures Current() == Step(old(Current()), Delete(id))
      ensures result == if id in old(ports) then Success else InvalidEntry
    {
      var changes := if id in ports then 1 else 0;
      ports := ports - {id};
      if changes > 0 {
        files := DeleteEntry(files, id);
        result := Success;
      } else {
        result := InvalidEntry;
      }
    }

    method EntryMap(id: EntryId, list: seq<Path>) returns (result: Result)
      modifies `files
      ensures Current() == Step(old(Current()), Map(id, list)) && result == Success
    {
      for i := 0 to |list|
        invariant MapFrom(files, id, list, i) == MapFrom(old(files), id, list, 0)
      {
        files := Insert(files, id, list[i]);
      }
      result := Success;
    }

    method EntryUnmap(id: EntryId, list: seq<Path>) returns (result: Result)
      modifies `files
      ensures Current() == Step(old(Current()), Unmap(id, list))
      ensures result == UnmapFrom(old(files), id, list, 0).1
    {
      result := Success;
      var i := 0;
      while i < |list| && result == Success
        invariant 0 <= i <= |list|
        invariant result == Success ==> UnmapFrom(files, id, list, i) == UnmapFrom(old(files), id, list, 0)
        invariant result != Success ==> (files, result) == UnmapFrom(old(files), id, list, 0)
      {
        var changes := ChangesOfPath(files, id, list[i]);
        NoMatchNoChange(files, id, list[i], "");
        files := DeletePath(files, id, list[i]);
        if changes == 0 {
          result := NotOwned(list[i]);
        }
        i := i + 1;
      }
    }

    // asFiles None stands for the files themselves.
    method EntryActivate(id: EntryId, list: seq<Path>, asFiles: Option<seq<Path>>) returns (result: Result)
      requires asFiles.Some? ==> |asFiles.value| == |list|
      modifies `files
      ensures var targets := if asFiles.Some? then asFiles.value else list;
        && Current() == Step(old(Current()), Activate(id, list, targets))
        && result == ActivateFrom(old(files), id, list, targets, 0).1
    {
      var targets := if asFiles.Some? then asFiles.value else list;
      result := Success;
      var i := 0;
      while i < |list| && result == Success
        invariant 0 <= i <= |list|
        invariant result == Success ==>
          ActivateFrom(files, id, list, targets, i) == ActivateFrom(old(files), id, list, targets, 0)
        invariant result != Success ==> (files, result) == ActivateFrom(old(files), id, list, targets, 0)
      {
        if IsUsed(files, targets[i]) {
          result := AlreadyActive(list[i]);
        } else {
          var changes := ChangesOfPath(files, id, list[i]);
          NoMatchNoChange(files, id, list[i], targets[i]);
          files := SetActive(files, id, list[i], targets[i]);
          if changes == 0 {
            result := NotProvided(list[i]);
          }
        }
        i := i + 1;
      }
    }

    method EntryDeactivate(id: EntryId, list: seq<Path>) returns (result: Result)
      modifies `files
      ensures Current() == Step(old(Current()), Deactivate(id, list))
      ensures result == DeactivateFrom(old(files), id, list, 0).1
    {
      result := Success;
      var i := 0;
      while i < |list| && result == Success
        invariant 0 <= i <= |list|
        invariant result == Success ==> DeactivateFrom(files, id, list, i) == DeactivateFrom(old(files), id, list, 0)
        invariant result != Success ==> (files, result) == DeactivateFrom(old(files), id, list, 0)
      {
        var changes := ChangesOfActual(files, id, list[i]);
        NoMatchNoChange(files, id, list[i], "");
        files := ClearActive(files, id, list[i]);
        if changes == 0 {
          result := NotOwned(list[i]);
        }
        i := i + 1;
      }
    }

    // The first row found decides; in a sound table there is at most one.
    method EntryOwner(path: Path) returns (owner: Option<EntryId>)
      ensures owner.Some? ==> Owns(files, owner.value, path)
      ensures owner.None? ==> forall id: EntryId :: !Owns(files, id, path)
      ensures Sound(files) ==> forall id: EntryId :: Owns(files, id, path) <==> owner == Some(id)
    {
      if IsUsed(files, path) {
        var k :| k in files.rows && ActiveAs(files.rows[k], path);
        owner := Some(files.rows[k].id);
        assert Owns(files, owner.value, path);
      } else {
        owner := None;
      }
    }

    // BEGIN and BEGIN IMMEDIATE
    method Start() returns (result: Result)
      modifies this
      ensures Current() == Step(old(Current()), Begin)
      ensures result == if old(transacting) then Misuse else Success
    {
      if transacting {
        return Misuse;
      }
      saved := Db();
      transacting := true;
      result := Success;
    }

    method CommitTransaction() returns (result: Result)
      modifies this
      ensures Current() == Step(old(Current()), Commit)
      ensures result == if old(transacting) then Success else Misuse
    {
      if !transacting {
        return Misuse;
      }
      transacting := false;
      result := Success;
    }

    method RollbackTransaction() returns (result: Result)
      modifies this
      ensures Current() == Step(old(Current()), Rollback)
      ensures result == if old(transacting) then Success else Misuse
    {
      if !transacting {
        return Misuse;
      }
      ports, lastPort, files := saved.ports, saved.lastPort, saved.files;
      transacting := false;
      result := Success;
    }
  }
}
