/**
 Starting the fleet: read the manifests, see which shard directories there are and what their
 databases hold, plan, and bring the shards up one by one.
 */
module FleetStartup {
  import opened Wrappers
  import opened Ordering
  import opened Placement
  import opened ShardDirs
  import opened FleetTable
  import opened FleetPlan
  import opened Replan
  import opened Manifests
  import opened FleetMachine
  import opened FleetManager

  /** An entry of the layout at which making the directory, or starting the actor, fails. */
  datatype Fault = DirFault(at: nat) | SpawnFault(at: nat)

  datatype StartError = Collision(name: string) | Unreadable | Stopped

  function NameSeq(members: seq<Member>): seq<string> {
    seq(|members|, i requires 0 <= i < |members| => members[i].name)
  }

  lemma SameNames(members: seq<Member>)
    ensures (set name | name in NameSeq(members)) == NamesOf(members)
  {
    forall name ensures name in NameSeq(members) <==> name in NamesOf(members) {
      if name in NamesOf(members) {
        var i :| 0 <= i < |members| && members[i].name == name;
        assert NameSeq(members)[i] == name;
      }
    }
  }

  /** Everybody a layout lists. */
  ghost predicate InLayout(layout: Layout, name: string) {
    exists i :: 0 <= i < |layout| && name in NamesOf(layout[i].1)
  }

  lemma InLayoutSnoc(layout: Layout, n: nat, name: string)
    requires n < |layout|
    ensures InLayout(layout[..n + 1], name) <==> InLayout(layout[..n], name) || name in NamesOf(layout[n].1)
  {
    hide NamesOf;
    if InLayout(layout[..n], name) {
      var i :| 0 <= i < n && name in NamesOf(layout[..n][i].1);
      assert layout[..n + 1][i] == layout[..n][i];
    }
    if name in NamesOf(layout[n].1) {
      assert layout[..n + 1][n] == layout[n];
    }
    if InLayout(layout[..n + 1], name) {
      var i :| 0 <= i < n + 1 && name in NamesOf(layout[..n + 1][i].1);
      assert i < n ==> layout[..n + 1][i] == layout[..n][i];
    }
  }

  lemma RegisteredSnoc(layout: Layout, n: nat)
    requires n < |layout|
    ensures var (index, members) := layout[n];
            Registered(layout[..n + 1])
            == Registered(layout[..n]) + [Shard(index, NamesOf(members), |members|, MinBirthday(members))]
  {
  }

  lemma CreatedSnoc(disk: Disk, layout: Layout, n: nat)
    requires n < |layout|
    ensures AllCreated(disk, layout[..n + 1]) == Created(AllCreated(disk, layout[..n]), layout[n].0)
  {
    hide Created;
    assert layout[..n + 1][..n] == layout[..n] && layout[..n + 1][n] == layout[n];
  }

  lemma MakeableSnoc(disk: Disk, layout: Layout, n: nat)
    requires n < |layout| && Makeable(disk, layout[..n]) && !Plain(disk, layout[n].0)
    ensures Makeable(disk, layout[..n + 1])
  {
    hide Plain;
    var before, after := layout[..n], layout[..n + 1];
    forall i | 0 <= i < |after| ensures !Plain(disk, after[i].0) {
      assert i < n ==> after[i] == before[i];
    }
  }

  /** Directories made so far do not turn a path into something else, or back. */
  lemma PlainUnmade(disk: Disk, layout: Layout, j: nat)
    requires Makeable(disk, layout)
    ensures Plain(AllCreated(disk, layout), j) <==> Plain(disk, j)
  {
    hide Exists, IsDir, AllCreated;
    AllCreatedIsDir(disk, layout, j);
  }

  /** Bring the shards up in order; `made` directories exist when it stops. */
  method RegisterAll(manager: FleetManager, registry: Registry, layout: Layout, fault: Option<Fault>)
    returns (ok: bool, ghost made: nat)
    requires manager.shards == [] && forall i :: 0 <= i < |layout| ==> layout[i].1 != []
    modifies manager`shards, manager.fleetDir, registry
    ensures made <= |layout| && Makeable(old(manager.fleetDir.disk), layout[..made])
    ensures manager.fleetDir.disk == AllCreated(old(manager.fleetDir.disk), layout[..made])
    ensures ok <==> Makeable(old(manager.fleetDir.disk), layout) && (fault.Some? ==> fault.value.at >= |layout|)
    ensures ok ==> made == |layout| && manager.shards == Registered(layout)
    ensures ok ==> forall name :: name in registry.names <==> name in old(registry.names) || InLayout(layout, name)
  {
    hide Created, AllCreated, Plain, NamesOf, MinBirthday, Registered, InLayout, Makeable;
    ghost var disk := manager.fleetDir.disk;
    made := 0;
    NothingYet(disk, layout);
    for n := 0 to |layout|
      invariant made == n && (fault.Some? ==> fault.value.at >= n)
      invariant Makeable(disk, layout[..n]) && manager.fleetDir.disk == AllCreated(disk, layout[..n])
      invariant manager.shards == Registered(layout[..n])
      invariant forall name :: name in registry.names <==> name in old(registry.names) || InLayout(layout[..n], name)
    {
      var (index, members) := layout[n];
      CreatedSnoc(disk, layout, n);
      PlainUnmade(disk, layout[..n], index);
      if fault == Some(DirFault(n)) || Plain(manager.fleetDir.disk, index) {
        NotMakeable(disk, layout, n);
        return false, made;
      }
      MakeableSnoc(disk, layout, n);
      manager.fleetDir.disk := Created(manager.fleetDir.disk, index);
      made := n + 1;
      if fault == Some(SpawnFault(n)) {
        return false, made;
      }
      SameNames(members);
      RegisteredSnoc(layout, n);
      manager.RegisterShard(index, NameSeq(members), MinBirthday(members));
      registry.names := registry.names + NamesOf(members);
      forall name ensures InLayout(layout[..n + 1], name) <==> InLayout(layout[..n], name) || name in NamesOf(members) {
        InLayoutSnoc(layout, n, name);
      }
    }
    assert layout[..|layout|] == layout;
    ok := true;
  }

  lemma NothingYet(disk: Disk, layout: Layout)
    ensures layout[..0] == [] && Makeable(disk, []) && AllCreated(disk, []) == disk && Registered([]) == []
    ensures forall name :: !InLayout([], name)
  {
  }

  lemma NotMakeable(disk: Disk, layout: Layout, n: nat)
    requires n < |layout|
    ensures Plain(disk, layout[n].0) ==> !Makeable(disk, layout)
  {
    hide Plain;
  }

  // ---- The whole startup -------------------------------------------------------------------

  /** The served wallet names. */
  ghost predicate ServesName(files: Files, name: string) {
    exists m :: Serves(files, m) && m.name == name
  }

  ghost function Births(members: seq<Member>): map<string, u32>
    decreases |members|
  {
    if members == [] then map[]
    else Births(members[..|members| - 1])[members[|members| - 1].name := members[|members| - 1].birthday]
  }

  lemma {:induction false} BirthsBornAs(members: seq<Member>)
    requires DistinctNames(members)
    ensures BornAs(members, Births(members))
    ensures forall name :: name in Births(members) ==> name in NamesOf(members)
    decreases |members|
  {
    if members != [] {
      var n := |members| - 1;
      BirthsBornAs(members[..n]);
      assert members == members[..n] + [members[n]];
      forall m | m in members ensures m.name in Births(members) && Births(members)[m.name] == m.birthday {
        if m != members[n] {
          assert m in members[..n];
        }
      }
      assert forall i :: 0 <= i < n ==> members[..n][i] == members[i];
    }
  }

  method FirstCollision(members: seq<Member>, configured: set<string>) returns (r: Option<string>)
    ensures r.Some? <==> exists m :: m in members && m.name in configured
    ensures r.Some? ==> r.value in configured && exists m :: m in members && m.name == r.value
  {
    for n := 0 to |members|
      invariant forall i :: 0 <= i < n ==> members[i].name !in configured
    {
      if members[n].name in configured {
        return Some(members[n].name);
      }
    }
    r := None;
  }

  /** The fleet when no process runs. */
  ghost function Halted(manifests: ManifestDir, fleetDir: FleetDir, registry: Registry): Fleet
    reads manifests, fleetDir, registry
  {
    Fleet([], registry.names, fleetDir.disk, manifests.files, manifests.loose, map[])
  }

  /** A manifest names a wallet the configuration has too. */
  ghost predicate Clashes(files: Files, configured: set<string>) {
    exists name :: ServesName(files, name) && name in configured
  }

  /** Every shard database a scan reaches opens. */
  ghost predicate Readable(disk: Disk, databases: map<string, seq<Account>>) {
    forall i: nat :: InPrefix(disk, i) ==> ShardDirName(i) in databases
  }

  lemma LoadedNames(files: Files, members: seq<Member>)
    requires StrictlySortedBy(members, (m: Member) => m.name) && forall m :: m in members <==> Serves(files, m)
    ensures DistinctNames(members)
    ensures forall name :: name in NamesOf(members) <==> ServesName(files, name)
    ensures forall name :: ServesName(files, name) <==> exists m :: m in members && m.name == name
  {
    hide Serves, Less;
    forall i, j | 0 <= i < j < |members| ensures members[i].name != members[j].name {
      LessTotal(members[i].name, members[j].name);
    }
    forall name ensures name in NamesOf(members) <==> ServesName(files, name) {
      if ServesName(files, name) {
        var m :| Serves(files, m) && m.name == name;
        var i :| 0 <= i < |members| && members[i] == m;
        assert members[i].name == name;
      }
    }
  }

  lemma ScanEnds(disk: Disk, n: nat)
    requires forall i: nat :: i < n <==> InPrefix(disk, i)
    ensures PrefixEnd(disk, n)
  {
    hide IsDir;
    if n > 0 {
      assert InPrefix(disk, n - 1);
    }
    assert IsDir(disk, n) ==> InPrefix(disk, n);
  }

  /**
   The whole startup.  `listing` is the manifest directory in whatever order the file system lists
   it, and `databases` what can be opened of the shard databases.  Whatever it finds and wherever it
   stops, it is a startup of the machine; once it is through, the fleet is well formed and a wallet
   has a shard, and is served, exactly when its manifest is there to be read.
   */
  method StartFleet(config: Config, manifests: ManifestDir, fleetDir: FleetDir, registry: Registry,
                    configured: set<string>, listing: seq<string>, databases: map<string, seq<Account>>,
                    fault: Option<Fault>)
    returns (r: Result<FleetManager, StartError>)
    requires forall file :: file in listing <==> file in manifests.files
    requires forall i, j :: 0 <= i < j < |listing| ==> listing[i] != listing[j]
    modifies fleetDir, registry
    ensures r.Ok? ==>
              && fresh(r.value) && r.value.config == config && r.value.manifests == manifests
              && r.value.fleetDir == fleetDir && r.value.tasks == []
              && Starts(config, old(fleetDir.disk), r.value.View(registry)) && FleetOk(r.value.View(registry))
              && (forall name :: Holds(r.value.shards, name) <==> ServesName(manifests.files, name))
              && (forall name :: name in registry.names <==>
                    name in old(registry.names) || ServesName(manifests.files, name))
    ensures r.Err? ==>
              Starts(config, old(fleetDir.disk), Halted(manifests, fleetDir, registry))
    ensures r.Err? && r.error.Collision? <==> Clashes(manifests.files, configured)
    ensures r == Err(Unreadable) <==>
              !Clashes(manifests.files, configured) && !Readable(old(fleetDir.disk), databases)
    ensures r.Err? && r.error.Collision? ==>
              r.error.name in configured && exists m :: Serves(manifests.files, m) && m.name == r.error.name
    ensures r == Err(Stopped) ==> fault.Some? || exists j: nat :: Plain(old(fleetDir.disk), j)
  {
    hide IsLayout, Homes, Serves, IsDir, StrictlySortedBy, Starts, FleetOk, Plain, ShardDirName, Records, IsStateOf;
    ghost var disk := fleetDir.disk;
    var loaded := LoadManifests(manifests.files, listing);
    var members := loaded.value.0;
    LoadedNames(manifests.files, members);
    var clash := FirstCollision(members, configured);
    if clash.Some? {
      GivesUp(config, disk, Halted(manifests, fleetDir, registry));
      return Err(Collision(clash.value));
    }
    var dirs := ExistingShardDirs(fleetDir.disk);
    ScanEnds(disk, |dirs|);
    var inspected := InspectShards(dirs, databases);
    if inspected.None? {
      GivesUp(config, disk, Halted(manifests, fleetDir, registry));
      return Err(Unreadable);
    }
    var (placed, existing) := inspected.value;
    var layout := Plan(members, placed, existing, config);
    var manager := new FleetManager(config, manifests, fleetDir);
    r := BringUp(manager, registry, members, placed, existing, layout, fault);
  }

  /** The end of a startup: everything is read and planned. */
  method BringUp(manager: FleetManager, registry: Registry, ghost members: seq<Member>, ghost placed: map<string, nat>,
                 ghost existing: seq<ShardState>, layout: Layout, fault: Option<Fault>)
    returns (r: Result<FleetManager, StartError>)
    requires manager.shards == [] && DistinctNames(members)
    requires forall m :: m in members <==> Serves(manager.manifests.files, m)
    requires PrefixEnd(manager.fleetDir.disk, |existing|)
    requires IsLayout(layout, members, Homes(members, placed, |existing|, existing, manager.config))
    modifies manager, manager.fleetDir, registry
    ensures manager.tasks == old(manager.tasks)
    ensures r.Ok? ==>
              && r.value == manager && FleetOk(manager.View(registry))
              && Starts(manager.config, old(manager.fleetDir.disk), manager.View(registry))
              && (forall name :: Holds(manager.shards, name) <==> name in NamesOf(members))
              && (forall name :: name in registry.names <==> name in old(registry.names) || name in NamesOf(members))
    ensures r.Err? ==>
              && r.error.Stopped?
              && Starts(manager.config, old(manager.fleetDir.disk),
                        Halted(manager.manifests, manager.fleetDir, registry))
              && (fault.Some? || exists j: nat :: Plain(old(manager.fleetDir.disk), j))
  {
    hide IsLayout, Homes, Serves, PrefixEnd, Plain, Registered, AllCreated, Makeable, Holds, NamesOf, FleetOk, InLayout;
    ghost var disk, homes := manager.fleetDir.disk, Homes(members, placed, |existing|, existing, manager.config);
    NobodyEmpty(layout, members, homes);
    var ok;
    ghost var made;
    ok, made := RegisterAll(manager, registry, layout, fault);
    if !ok {
      ghost var f := Halted(manager.manifests, manager.fleetDir, registry);
      assert StartsAs(manager.config, disk, f, members, placed, existing, layout, made);
      InTheWay(disk, layout);
      return Err(Stopped);
    }
    manager.births := Births(members);
    BirthsBornAs(members);
    LayoutNames(layout, members, homes);
    forall m | m in members ensures m.name in NamesOf(members) {
      MemberNamed(members, m);
    }
    assert layout[..made] == layout;
    assert StartsAs(manager.config, disk, manager.View(registry), members, placed, existing, layout, made);
    UpOk(manager.config, disk, manager.View(registry), members, placed, existing, layout, made);
    r := Ok(manager);
  }

  lemma NobodyEmpty(layout: Layout, members: seq<Member>, homes: seq<nat>)
    requires |members| == |homes| && IsLayout(layout, members, homes)
    ensures forall i :: 0 <= i < |layout| ==> layout[i].1 != []
  {
  }

  lemma InTheWay(disk: Disk, layout: Layout)
    ensures !Makeable(disk, layout) ==> exists j: nat :: Plain(disk, j)
  {
    hide Plain;
  }

  lemma MemberNamed(members: seq<Member>, m: Member)
    requires m in members
    ensures m.name in NamesOf(members)
  {
    var i :| 0 <= i < |members| && members[i] == m;
    assert members[i].name == m.name;
  }

  /** The layout lists exactly the members' names. */
  lemma LayoutNames(layout: Layout, members: seq<Member>, homes: seq<nat>)
    requires |members| == |homes| && IsLayout(layout, members, homes)
    ensures forall name :: InLayout(layout, name) <==> name in NamesOf(members)
  {
    hide IsLayout, MinBirthday;
    forall name ensures InLayout(layout, name) <==> name in NamesOf(members) {
      StartupHolds(layout, members, homes, name);
      var table := Registered(layout);
      assert forall i :: 0 <= i < |layout| ==> table[i].members == NamesOf(layout[i].1);
    }
  }

  lemma GivesUp(config: Config, disk: Disk, f: Fleet)
    requires f.table == [] && f.disk == disk
    ensures Starts(config, disk, f)
  {
  }
}
