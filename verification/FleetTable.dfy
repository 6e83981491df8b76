/**
 The table of running shards and the two ways onboarding changes it.  A shard's directory is given
 by its index; distinct indices are distinct directories because the names are injective.
 */
module FleetTable {
  import opened Wrappers
  import opened Placement
  import opened ShardDirs

  datatype Shard = Shard(index: nat, members: set<string>, accounts: nat, lowest: Option<u32>)

  type Table = seq<Shard>

  function States(table: Table): (states: seq<ShardState>)
    ensures |states| == |table|
  {
    seq(|table|, i requires 0 <= i < |table| => ShardState(table[i].accounts, table[i].lowest))
  }

  predicate Holds(table: Table, name: string) {
    exists i :: 0 <= i < |table| && name in table[i].members
  }

  /** A wallet joins shard `i`. */
  function Admit(table: Table, i: nat, m: Member): Table
    requires i < |table|
  {
    var s := table[i];
    table[i := Shard(s.index, s.members + {m.name}, s.accounts + 1, Some(Lowest(s.lowest, m.birthday)))]
  }

  /** A wallet gets a shard of its own, in directory `index`. */
  function Open(table: Table, index: nat, m: Member): Table {
    table + [Shard(index, {m.name}, 1, Some(m.birthday))]
  }

  // ---- What every reachable table satisfies ------------------------------------------------

  ghost predicate DistinctDirs(table: Table) {
    forall i, j :: 0 <= i < j < |table| ==> table[i].index != table[j].index
  }

  ghost predicate OneShardEach(table: Table) {
    forall i, j :: 0 <= i < j < |table| ==> table[i].members !! table[j].members
  }

  ghost predicate AccountsCount(table: Table) {
    forall i :: 0 <= i < |table| ==> table[i].accounts == |table[i].members|
  }

  ghost predicate TableOk(table: Table) {
    DistinctDirs(table) && OneShardEach(table) && AccountsCount(table)
  }

  /** Every registered shard has its directory, and no lower index is free. */
  ghost predicate OnDisk(table: Table, disk: Disk) {
    forall i :: 0 <= i < |table| ==> Reached(disk, table[i].index)
  }

  lemma AdmitOk(table: Table, i: nat, m: Member)
    requires TableOk(table) && i < |table| && !Holds(table, m.name)
    ensures TableOk(Admit(table, i, m)) && Holds(Admit(table, i, m), m.name)
    ensures forall name :: name != m.name ==> (Holds(Admit(table, i, m), name) <==> Holds(table, name))
  {
    var after := Admit(table, i, m);
    assert m.name in after[i].members;
    forall j | 0 <= j < |table| && j != i ensures after[j].members !! after[i].members {
      assert table[j].members !! table[i].members && m.name !in table[j].members;
    }
    forall name | name != m.name ensures Holds(after, name) <==> Holds(table, name) {
      forall j | 0 <= j < |table| ensures name in after[j].members <==> name in table[j].members {
      }
    }
  }

  lemma OpenOk(table: Table, index: nat, m: Member)
    requires TableOk(table) && !Holds(table, m.name)
    requires forall i :: 0 <= i < |table| ==> table[i].index != index
    ensures TableOk(Open(table, index, m)) && Holds(Open(table, index, m), m.name)
    ensures forall name :: name != m.name ==> (Holds(Open(table, index, m), name) <==> Holds(table, name))
  {
    var after := Open(table, index, m);
    assert m.name in after[|table|].members;
    forall name | name != m.name ensures Holds(after, name) <==> Holds(table, name) {
      assert forall j :: 0 <= j < |table| ==> after[j] == table[j];
    }
  }

  // ---- Pigeonhole --------------------------------------------------------------------------

  ghost function Indices(table: Table): set<nat> {
    set i | 0 <= i < |table| :: table[i].index
  }

  lemma {:induction false} IndicesSize(table: Table)
    requires DistinctDirs(table)
    ensures |Indices(table)| == |table|
  {
    if table != [] {
      var n := |table| - 1;
      IndicesSize(table[..n]);
      assert Indices(table) == Indices(table[..n]) + {table[n].index};
      assert table[n].index !in Indices(table[..n]);
    }
  }

  lemma {:induction false} BoundedSize(s: set<nat>, n: nat)
    requires forall x :: x in s ==> x < n
    ensures |s| <= n
  {
    if n > 0 {
      BoundedSize(s - {n - 1}, n - 1);
      assert s <= s - {n - 1} + {n - 1};
    } else {
      assert s == {};
    }
  }

  /** With as many distinct directories as shards, and no free index below any, that many are taken. */
  lemma TableCovered(table: Table, disk: Disk, j: nat)
    requires DistinctDirs(table) && OnDisk(table, disk) && j < |table|
    ensures Exists(disk, j)
  {
    if forall i :: 0 <= i < |table| ==> table[i].index < j {
      IndicesSize(table);
      BoundedSize(Indices(table), j);
    } else {
      var i :| 0 <= i < |table| && table[i].index >= j;
      assert Reached(disk, table[i].index);
    }
  }

  /**
   The directory search starts at the number of registered shards.  What it returns is the least
   free index on disk and belongs to no registered shard, and creating it leaves no gap.
   */
  lemma NewShardOnDisk(table: Table, disk: Disk, index: nat)
    requires TableOk(table) && OnDisk(table, disk) && IsNextFree(disk, |table|, index)
    ensures forall j :: 0 <= j < index ==> Exists(disk, j)
    ensures forall i :: 0 <= i < |table| ==> table[i].index != index
    ensures OnDisk(table, Created(disk, index)) && Reached(Created(disk, index), index)
  {
    hide ShardDirName, IsDir, Exists;
    ExistsFromDir(disk);
    forall j: nat | j < index ensures Exists(disk, j) {
      if j < |table| {
        TableCovered(table, disk, j);
      }
    }
    forall i | 0 <= i < |table| ensures table[i].index != index {
      assert Reached(disk, table[i].index);
      assert IsDir(disk, table[i].index);
    }
    forall j: nat
      ensures IsDir(Created(disk, index), j) <==> j == index || IsDir(disk, j)
      ensures Exists(Created(disk, index), j) <==> j == index || Exists(disk, j)
    {
      CreatedIsDir(disk, index, j);
    }
    forall i | 0 <= i < |table| ensures Reached(Created(disk, index), table[i].index) {
      assert Reached(disk, table[i].index);
    }
  }

  // ---- The lowest birthday -----------------------------------------------------------------

  /** `lowest` is the least of the birthdays the shard's members were placed with. */
  ghost predicate IsFloor(s: Shard, births: map<string, u32>) {
    && s.lowest.Some?
    && (forall name :: name in s.members ==> name in births && s.lowest.value <= births[name])
    && (exists name :: name in s.members && name in births && births[name] == s.lowest.value)
  }

  ghost predicate Floors(table: Table, births: map<string, u32>) {
    forall i :: 0 <= i < |table| ==> IsFloor(table[i], births)
  }

  lemma FloorKept(s: Shard, births: map<string, u32>, m: Member)
    requires IsFloor(s, births) && m.name !in s.members
    ensures IsFloor(s, births[m.name := m.birthday])
  {
    var name :| name in s.members && name in births && births[name] == s.lowest.value;
    assert births[m.name := m.birthday][name] == s.lowest.value;
  }

  /** Placement keeps every floor exact, in the joined shard and in the others. */
  lemma AdmitFloors(table: Table, i: nat, m: Member, births: map<string, u32>)
    requires Floors(table, births) && i < |table| && !Holds(table, m.name)
    ensures Floors(Admit(table, i, m), births[m.name := m.birthday])
  {
    var after := Admit(table, i, m);
    forall j | 0 <= j < |table| ensures IsFloor(after[j], births[m.name := m.birthday]) {
      FloorKept(table[j], births, m);
      if j == i {
        var name :| name in table[i].members && name in births && births[name] == table[i].lowest.value;
        assert name in after[i].members && m.name in after[i].members;
      }
    }
  }

  lemma OpenFloors(table: Table, index: nat, m: Member, births: map<string, u32>)
    requires Floors(table, births) && !Holds(table, m.name)
    ensures Floors(Open(table, index, m), births[m.name := m.birthday])
  {
    var after := Open(table, index, m);
    forall j | 0 <= j < |after| ensures IsFloor(after[j], births[m.name := m.birthday]) {
      if j < |table| {
        FloorKept(table[j], births, m);
      } else {
        assert m.name in after[j].members;
      }
    }
  }
}
