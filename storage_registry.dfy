/** The registry of local tables (`StorageRegistry`): which storage
    directory holds each known table, which tables have a running storage
    manager, and the rule that places a new table in the least used
    directory. */
module StorageRegistries {
  import opened Wrappers

  /** A table name (`SSTableName`). Its parsing is not part of this model:
      `isValid` is the result of `isValid()`, and the distribution group and
      region id are what the name's getters return. */
  datatype SSTableName = SSTableName(fullname: string, distributionGroup: string, regionId: int, isValid: bool)

  /** The storage manager of a table, as far as the registry is concerned:
      the directory and table it was created for. */
  datatype SSTableManager = SSTableManager(location: string, table: SSTableName)

  /** The number of tables among `keys` that `locations` places in `dir`. */
  function CountIn(locations: map<SSTableName, string>, keys: set<SSTableName>, dir: string): nat
    requires keys <= locations.Keys
  {
    |set t | t in keys && locations[t] == dir|
  }

  /** The usage of a directory: how many known tables it holds. */
  function Usage(locations: map<SSTableName, string>, dir: string): nat
  {
    CountIn(locations, locations.Keys, dir)
  }

  /** Counting one more table adds one to its own directory only. */
  lemma CountAdd(locations: map<SSTableName, string>, keys: set<SSTableName>, t: SSTableName, dir: string)
    requires keys <= locations.Keys && t in locations && t !in keys
    ensures CountIn(locations, keys + {t}, dir) == CountIn(locations, keys, dir) + (if locations[t] == dir then 1 else 0)
  {
    var before := set u | u in keys && locations[u] == dir;
    var after := set u | u in keys + {t} && locations[u] == dir;
    if locations[t] == dir {
      assert after == before + {t};
    } else {
      assert after == before;
    }
  }

  /** Recording a new table in `dir` raises the usage of `dir` by one and
      leaves every other directory's usage as it was. */
  lemma UsageAfterRecord(locations: map<SSTableName, string>, t: SSTableName, dir: string, other: string)
    requires t !in locations
    ensures Usage(locations[t := dir], dir) == Usage(locations, dir) + 1
    ensures other != dir ==> Usage(locations[t := dir], other) == Usage(locations, other)
  {
    var l2 := locations[t := dir];
    assert l2.Keys == locations.Keys + {t};
    CountAdd(l2, locations.Keys, t, dir);
    CountAdd(l2, locations.Keys, t, other);
    CountSame(locations, l2, locations.Keys, dir);
    CountSame(locations, l2, locations.Keys, other);
  }

  /** Forgetting a table lowers the usage of its directory by one and
      leaves every other directory's usage as it was. */
  lemma UsageAfterRemove(locations: map<SSTableName, string>, t: SSTableName, other: string)
    requires t in locations
    ensures Usage(locations - {t}, locations[t]) + 1 == Usage(locations, locations[t])
    ensures other != locations[t] ==> Usage(locations - {t}, other) == Usage(locations, other)
  {
    var l2 := locations - {t};
    assert locations.Keys == l2.Keys + {t};
    CountAdd(locations, l2.Keys, t, locations[t]);
    CountAdd(locations, l2.Keys, t, other);
    CountSame(l2, locations, l2.Keys, locations[t]);
    CountSame(l2, locations, l2.Keys, other);
  }

  /** Counting over keys on which two maps agree gives the same result. */
  lemma CountSame(l1: map<SSTableName, string>, l2: map<SSTableName, string>, keys: set<SSTableName>, dir: string)
    requires keys <= l1.Keys && keys <= l2.Keys
    requires forall t :: t in keys ==> l1[t] == l2[t]
    ensures CountIn(l1, keys, dir) == CountIn(l2, keys, dir)
  {
    assert (set u | u in keys && l1[u] == dir) == (set u | u in keys && l2[u] == dir);
  }

  /** The usage map of `getLowestUtilizedDataLocation` before counting:
      zero for every directory. */
  method ZeroUsage(directories: seq<string>) returns (usage: map<string, nat>)
    ensures forall d :: d in usage <==> d in directories
    ensures forall d :: d in usage ==> usage[d] == 0
  {
    usage := map[];
    for i := 0 to |directories|
      invariant forall d :: d in usage <==> d in directories[..i]
      invariant forall d :: d in usage ==> usage[d] == 0
    {
      usage := usage[directories[i] := 0];
    }
    assert directories[..|directories|] == directories;
  }

  /** The usage map of `getLowestUtilizedDataLocation`: every directory
      starts at zero, then each recorded location adds one to its
      directory. The locations are visited in no particular order. */
  method CountUsage(directories: seq<string>, locations: map<SSTableName, string>) returns (usage: map<string, nat>)
    requires forall t :: t in locations ==> locations[t] in directories
    ensures forall d :: d in usage <==> d in directories
    ensures forall d :: d in usage ==> usage[d] == Usage(locations, d)
  {
    usage := ZeroUsage(directories);
    ghost var keys := usage.Keys;
    assert Counted(usage, locations, {});
    var rest := locations.Keys;
    while rest != {}
      invariant rest <= locations.Keys
      invariant usage.Keys == keys
      invariant Counted(usage, locations, locations.Keys - rest)
      decreases |rest|
    {
      var t :| t in rest;
      var loc := locations[t];
      CountStep(usage, locations, rest, t);
      usage := usage[loc := usage[loc] + 1];
      rest := rest - {t};
    }
    assert locations.Keys - rest == locations.Keys;
  }

  /** `usage` holds, for each of its directories, how many of the `counted`
      tables it holds. */
  ghost predicate Counted(usage: map<string, nat>, locations: map<SSTableName, string>, counted: set<SSTableName>)
    requires counted <= locations.Keys
  {
    forall d :: d in usage ==> usage[d] == CountIn(locations, counted, d)
  }

  /** Adding one to the directory of a table still to count counts it. */
  lemma CountStep(usage: map<string, nat>, locations: map<SSTableName, string>, rest: set<SSTableName>, t: SSTableName)
    requires rest <= locations.Keys && t in rest && locations[t] in usage
    requires Counted(usage, locations, locations.Keys - rest)
    ensures Counted(usage[locations[t] := usage[locations[t]] + 1], locations, locations.Keys - (rest - {t}))
  {
    var counted := locations.Keys - rest;
    assert locations.Keys - (rest - {t}) == counted + {t};
    forall d | d in usage
      ensures CountIn(locations, counted + {t}, d) == CountIn(locations, counted, d) + (if locations[t] == d then 1 else 0)
    {
      CountAdd(locations, counted, t, d);
    }
  }

  /** The smallest usage among `directories` (the stream's `min()`). */
  function LowestUsage(usage: map<string, nat>, directories: seq<string>): (lowest: nat)
    requires |directories| > 0 && forall d :: d in directories ==> d in usage
    ensures forall j :: 0 <= j < |directories| ==> lowest <= usage[directories[j]]
    ensures exists j :: 0 <= j < |directories| && usage[directories[j]] == lowest
  {
    var d := directories[|directories| - 1];
    if |directories| == 1 then usage[d]
    else
      var lowest := LowestUsage(usage, directories[..|directories| - 1]);
      if usage[d] < lowest then usage[d] else lowest
  }

  /** The index of the first directory with usage `value` (the stream's
      `filter(...).findFirst()`, taking the directories in list order). */
  function FirstWithUsage(usage: map<string, nat>, directories: seq<string>, value: nat): (i: nat)
    requires forall d :: d in directories ==> d in usage
    requires exists j :: 0 <= j < |directories| && usage[directories[j]] == value
    ensures i < |directories| && usage[directories[i]] == value
    ensures forall j :: 0 <= j < i ==> usage[directories[j]] != value
  {
    if usage[directories[0]] == value then 0
    else
      assert exists j :: 0 <= j < |directories[1..]| && usage[directories[1..][j]] == value by {
        var j :| 0 <= j < |directories| && usage[directories[j]] == value;
        assert directories[1..][j - 1] == directories[j];
      }
      1 + FirstWithUsage(usage, directories[1..], value)
  }

  class StorageRegistry {
    /** The storage directories of the configuration; never empty. */
    const storageDirectories: seq<string>
    var managerInstances: map<SSTableName, SSTableManager>
    var sstableLocations: map<SSTableName, string>

    /** Every recorded location is a storage directory, and every running
        manager belongs to a table with a recorded location, for which it
        was created. */
    ghost predicate Valid()
      reads this
    {
      |storageDirectories| > 0 &&
      (forall t :: t in sstableLocations ==> sstableLocations[t] in storageDirectories) &&
      (forall t :: t in managerInstances ==>
         t in sstableLocations && managerInstances[t] == SSTableManager(sstableLocations[t], t))
    }

    /** The registry over the configured directories, with the tables that
        the directory scan found in them. The scan itself is not part of this
        model. */
    constructor (storageDirectories: seq<string>, scanned: map<SSTableName, string>)
      requires |storageDirectories| > 0
      requires forall t :: t in scanned ==> scanned[t] in storageDirectories
      ensures Valid()
      ensures this.storageDirectories == storageDirectories
      ensures managerInstances == map[] && sstableLocations == scanned
    {
      this.storageDirectories := storageDirectories;
      managerInstances := map[];
      sstableLocations := scanned;
    }

    /** `getLowestUtilizedDataLocation`: a storage directory that holds the
        fewest known tables. */
    method GetLowestUtilizedDataLocation() returns (location: string)
      requires Valid()
      ensures location in storageDirectories
      ensures forall d :: d in storageDirectories ==> Usage(sstableLocations, location) <= Usage(sstableLocations, d)
    {
      var usage := CountUsage(storageDirectories, sstableLocations);
      var lowestUsage := LowestUsage(usage, storageDirectories);
      var i := FirstWithUsage(usage, storageDirectories, lowestUsage);
      location := storageDirectories[i];
    }

    /** `getSSTableManager`: an invalid name is rejected; a running manager
        is returned as it is; otherwise a manager is made for the table's
        recorded directory or, for a new table, for a least used directory,
        which is then recorded, and is started. `initSucceeds` is the outcome
        of starting it (`init`, which runs code outside this model): when it
        throws, the exception goes to the caller, no manager is kept, and a
        directory recorded for a new table stays recorded. */
    method GetSSTableManager(table: SSTableName, initSucceeds: bool) returns (r: Result<SSTableManager, JavaException>)
      requires Valid()
      modifies this
      ensures Valid()
      ensures !table.isValid ==>
                r == Err(StorageManagerException) &&
                managerInstances == old(managerInstances) && sstableLocations == old(sstableLocations)
      ensures table.isValid && table in old(managerInstances) ==>
                r == Ok(old(managerInstances)[table]) &&
                managerInstances == old(managerInstances) && sstableLocations == old(sstableLocations)
      ensures table.isValid && table !in old(managerInstances) && table in old(sstableLocations) ==>
                sstableLocations == old(sstableLocations) &&
                if initSucceeds then
                  r == Ok(SSTableManager(old(sstableLocations)[table], table)) &&
                  managerInstances == old(managerInstances)[table := r.value]
                else
                  r == Err(StorageManagerException) && managerInstances == old(managerInstances)
      ensures table.isValid && table !in old(sstableLocations) ==>
                table in sstableLocations && sstableLocations[table] in storageDirectories &&
                (forall d :: d in storageDirectories ==> Usage(old(sstableLocations), sstableLocations[table]) <= Usage(old(sstableLocations), d)) &&
                sstableLocations == old(sstableLocations)[table := sstableLocations[table]] &&
                if initSucceeds then
                  r == Ok(SSTableManager(sstableLocations[table], table)) &&
                  managerInstances == old(managerInstances)[table := r.value]
                else
                  r == Err(StorageManagerException) && managerInstances == old(managerInstances)
      ensures r.Ok? ==> table in managerInstances && managerInstances[table] == r.value && r.value.location == sstableLocations[table]
    {
      if !table.isValid {
        return Err(StorageManagerException);
      }
      if table in managerInstances {
        return Ok(managerInstances[table]);
      }
      var sstableManager;
      if table in sstableLocations {
        var location := sstableLocations[table];
        sstableManager := SSTableManager(location, table);
      } else {
        var location := GetLowestUtilizedDataLocation();
        sstableManager := SSTableManager(location, table);
        sstableLocations := sstableLocations[table := location];
      }
      if !initSucceeds {
        return Err(StorageManagerException);
      }
      managerInstances := managerInstances[table := sstableManager];
      r := Ok(sstableManager);
    }

    /** `shutdown`: stops and forgets the running manager of `table`; false
        when there is none. The recorded location stays. */
    method Shutdown(table: SSTableName) returns (stopped: bool)
      requires Valid()
      modifies this
      ensures Valid()
      ensures stopped <==> table in old(managerInstances)
      ensures managerInstances == old(managerInstances) - {table}
      ensures sstableLocations == old(sstableLocations)
    {
      if table !in managerInstances {
        return false;
      }
      managerInstances := managerInstances - {table};
      stopped := true;
    }

    /** `deleteTable`: an invalid name is rejected; otherwise the table's
        manager is stopped and its recorded location forgotten. An unknown
        table is only logged. */
    method DeleteTable(table: SSTableName) returns (r: Result<(), JavaException>)
      requires Valid()
      modifies this
      ensures Valid()
      ensures !table.isValid ==>
                r == Err(StorageManagerException) &&
                managerInstances == old(managerInstances) && sstableLocations == old(sstableLocations)
      ensures table.isValid ==>
                r == Ok(()) &&
                managerInstances == old(managerInstances) - {table} &&
                sstableLocations == old(sstableLocations) - {table}
    {
      if !table.isValid {
        return Err(StorageManagerException);
      }
      if table in managerInstances {
        var _ := Shutdown(table);
      }
      if table !in sstableLocations {
        assert managerInstances == old(managerInstances) - {table};
        return Ok(());
      }
      sstableLocations := sstableLocations - {table};
      r := Ok(());
    }

    /** `isStorageManagerActive`. */
    predicate IsStorageManagerActive(table: SSTableName)
      reads this
    {
      table in managerInstances
    }

    /** `getAllTables`: the tables with a recorded location. */
    function GetAllTables(): (tables: set<SSTableName>)
      reads this
      ensures forall t :: t in tables <==> t in sstableLocations
    {
      sstableLocations.Keys
    }

    /** `getAllTablesForDistributionGroup`. */
    function GetAllTablesForDistributionGroup(group: string): (tables: set<SSTableName>)
      reads this
      ensures forall t :: t in tables <==> t in GetAllTables() && t.distributionGroup == group
    {
      set t | t in sstableLocations && t.distributionGroup == group
    }

    /** `getAllTablesForDistributionGroupAndRegionId`. */
    function GetAllTablesForDistributionGroupAndRegionId(group: string, regionId: int): (tables: set<SSTableName>)
      reads this
      ensures forall t :: t in tables <==> t in sstableLocations && t.distributionGroup == group && t.regionId == regionId
    {
      set t | t in GetAllTablesForDistributionGroup(group) && t.regionId == regionId
    }

    /** `getStorageDirForSSTable`: the recorded directory, or for an unknown
        table a least used directory, which is not recorded. */
    method GetStorageDirForSSTable(table: SSTableName) returns (dir: string)
      requires Valid()
      ensures table in sstableLocations ==> dir == sstableLocations[table]
      ensures table !in sstableLocations ==>
                dir in storageDirectories &&
                forall d :: d in storageDirectories ==> Usage(sstableLocations, dir) <= Usage(sstableLocations, d)
    {
      if table !in sstableLocations {
        dir := GetLowestUtilizedDataLocation();
        return;
      }
      dir := sstableLocations[table];
    }
  }

  /** The registry is built only over at least one directory. */
  method NewStorageRegistry(storageDirectories: seq<string>, scanned: map<SSTableName, string>)
    returns (r: Result<StorageRegistry, JavaException>)
    requires forall t :: t in scanned ==> scanned[t] in storageDirectories
    ensures storageDirectories == [] <==> r == Err(IllegalArgumentException)
    ensures r.Ok? ==>
              r.value.Valid() && r.value.storageDirectories == storageDirectories &&
              r.value.managerInstances == map[] && r.value.sstableLocations == scanned
  {
    if |storageDirectories| == 0 {
      return Err(IllegalArgumentException);
    }
    var registry := new StorageRegistry(storageDirectories, scanned);
    r := Ok(registry);
  }
}
