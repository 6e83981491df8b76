/**
 `FleetManager` as the object it is: fields changed by `register_shard`, `place` and `onboard`.  A call
 that runs without interference is shown to take exactly the steps of `FleetMachine`, one by one,
 so what is proved there about every interleaving is about this code.
 */
module FleetManager {
  import opened Wrappers
  import opened Placement
  import opened ShardDirs
  import opened FleetTable
  import opened Manifests
  import opened FleetMachine

  /** The names served at `/wallet/<name>`. */
  class Registry {
    var names: set<string>

    constructor ()
      ensures names == {}
    {
      names := {};
    }
  }

  /** The fleet's directory of shard directories. */
  class FleetDir {
    var disk: Disk

    constructor (disk: Disk)
      ensures this.disk == disk
    {
      this.disk := disk;
    }
  }

  /** Outcomes outside the fleet's control, in the order they can arise. */
  datatype Env = Env(
    keyDecodes: bool,
    writeFault: Option<Step>,
    torn: Body,
    flushed: bool,
    importFailed: bool,
    accepted: bool,
    dirMade: bool,
    spawned: bool,
    removed: bool)

  datatype OnboardError = NameTaken | BadName | BadKey | OnboardFailed

  // ---- Following the machine ---------------------------------------------------------------

  type Trace = seq<(Fleet, Point)>

  /** Each state follows from the one before by a step of the call holding the mutex. */
  ghost predicate Follows(config: Config, c: Call, trace: Trace) {
    forall i :: 0 <= i < |trace| - 1 ==>
      Acts(config, c.(point := trace[i].1), trace[i].0, trace[i + 1].0, trace[i + 1].1)
  }

  ghost predicate Reaches(config: Config, c: Call, trace: Trace, f: Fleet, p: Point) {
    && trace != [] && trace[0] == (c.entry, Entered) && Follows(config, c, trace)
    && trace[|trace| - 1] == (f, p)
  }

  lemma Extend(config: Config, c: Call, trace: Trace, f: Fleet, p: Point, f': Fleet, p': Point)
    requires Reaches(config, c, trace, f, p) && Acts(config, c.(point := p), f, f', p')
    ensures Reaches(config, c, trace + [(f', p')], f', p')
  {
    hide Acts;
    var after := trace + [(f', p')];
    forall i | 0 <= i < |after| - 1
      ensures Acts(config, c.(point := after[i].1), after[i].0, after[i + 1].0, after[i + 1].1)
    {
      if i < |trace| - 1 {
        assert after[i] == trace[i] && after[i + 1] == trace[i + 1];
      }
    }
  }

  /** A call followed to its end keeps the fleet well formed and leaves what its result promises. */
  lemma {:induction false} FollowedCall(config: Config, c: Call, trace: Trace, n: nat)
    requires c.point.Entered? && FleetOk(c.entry) && n < |trace| && trace[0] == (c.entry, Entered)
    requires Follows(config, c, trace)
    ensures FleetOk(trace[n].0)
    ensures HoldsLock(trace[n].1) ==> CallOk(config, c.(point := trace[n].1), trace[n].0)
    ensures trace[n].1 == Finished(false) ==>
              && n > 0 && FailedCleanly(c, trace[n].0)
              && RolledBack(c.(point := trace[n - 1].1), trace[n - 1].0, trace[n].0)
    ensures trace[n].1 == Finished(true) ==> SucceededOnce(c, trace[n].0)
  {
    if n == 0 {
      EnteredOk(config, c);
    } else {
      hide FleetOk, CallOk, Acts, FailedCleanly, RolledBack, SucceededOnce, GrowsWithin;
      FollowedCall(config, c, trace, n - 1);
      OnlyHolderActs(config, c.(point := trace[n - 1].1), trace[n - 1].0, trace[n].0, trace[n].1);
      ActsOk(config, c.(point := trace[n - 1].1), trace[n - 1].0, trace[n].0, trace[n].1);
      SameCall(c, trace[n - 1].1, trace[n].0);
    }
  }

  lemma OnlyHolderActs(config: Config, c: Call, f: Fleet, f': Fleet, p': Point)
    requires Acts(config, c, f, f', p')
    ensures HoldsLock(c.point)
  {
  }

  lemma EnteredOk(config: Config, c: Call)
    requires c.point.Entered?
    ensures CallOk(config, c, c.entry)
  {
    hide IsManifest, ValidName;
  }

  /** What a call did does not depend on where it is now. */
  lemma SameCall(c: Call, p: Point, f: Fleet)
    ensures FailedCleanly(c.(point := p), f) <==> FailedCleanly(c, f)
    ensures SucceededOnce(c.(point := p), f) <==> SucceededOnce(c, f)
  {
    hide IsManifest, Holds;
  }

  ghost function WithFiles(f: Fleet, files: Files): Fleet {
    f.(files := files)
  }

  /** Where a manifest write leaves the call. */
  function WrittenPoint(ok: bool): Point {
    if ok then Placing else Finished(false)
  }

  /** A manifest write passes through the machine's four steps. */
  lemma WriteFollows(config: Config, c: Call, trace: Trace, f: Fleet, fault: Option<Step>, torn: Body, flushed: bool)
    returns (trace': Trace)
    requires Reaches(config, c, trace, f, Writing(CreateTemp))
    ensures var trail := WriteTrail(f.files, c.member, fault, torn);
            var loose := if |trail| < 5 then f.loose else if flushed then {} else f.loose + {NewEntry(c.member)};
            Reaches(config, c, trace', WithFiles(f, trail[|trail| - 1]).(loose := loose), WrittenPoint(|trail| == 5))
  {
    hide Reaches, Done, Faulted, ManifestName, TempName;
    var m := c.member;
    if ManifestName(m.name) in f.files || fault == Some(CreateTemp) {
      Faults(f, m, CreateTemp, torn);
      Extend(config, c, trace, f, Writing(CreateTemp), f, Finished(false));
      return trace + [(f, Finished(false))];
    }
    var created := WithFiles(f, Done(f.files, m, CreateTemp));
    Extend(config, c, trace, f, Writing(CreateTemp), created, Writing(WriteBody));
    trace' := trace + [(created, Writing(WriteBody))];
    if fault == Some(WriteBody) {
      var faulted := WithFiles(f, Faulted(created.files, m, WriteBody, torn));
      assert faulted == created.(files := Faulted(created.files, m, WriteBody, torn));
      Extend(config, c, trace', created, Writing(WriteBody), faulted, Finished(false));
      return trace' + [(faulted, Finished(false))];
    }
    var written := WithFiles(f, Done(created.files, m, WriteBody));
    Extend(config, c, trace', created, Writing(WriteBody), written, Writing(Sync));
    trace' := trace' + [(written, Writing(Sync))];
    TempThere(f.files, m);
    if fault == Some(Sync) {
      Faults(written, m, Sync, torn);
      Extend(config, c, trace', written, Writing(Sync), written, Finished(false));
      return trace' + [(written, Finished(false))];
    }
    var synced := WithFiles(f, Done(written.files, m, Sync));
    Extend(config, c, trace', written, Writing(Sync), synced, Writing(Rename));
    trace' := trace' + [(synced, Writing(Rename))];
    if fault == Some(Rename) {
      Faults(synced, m, Rename, torn);
      Extend(config, c, trace', synced, Writing(Rename), synced, Finished(false));
      return trace' + [(synced, Finished(false))];
    }
    var loose := if flushed then {} else f.loose + {NewEntry(m)};
    var renamed := WithFiles(f, Done(synced.files, m, Rename)).(loose := loose);
    Extend(config, c, trace', synced, Writing(Rename), renamed, Placing);
    trace' := trace' + [(renamed, Placing)];
  }

  lemma Faults(f: Fleet, m: Member, step: Step, torn: Body)
    requires !step.WriteBody?
    ensures f == f.(files := Faulted(f.files, m, step, torn))
  {
  }

  lemma TempThere(files: Files, m: Member)
    ensures var written := Done(Done(files, m, CreateTemp), m, WriteBody);
            && TempName(m.name) in written && TempName(m.name) in Done(written, m, Sync)
            && Done(written, m, Sync)[TempName(m.name)] == File(Whole(m), true)
  {
  }

  /** One task for a shard that was opened, and none otherwise. */
  ghost function TasksFor(before: Table, after: Table): seq<string> {
    if |after| > |before| then [ShardDirName(after[|before|].index)] else []
  }

  lemma NoTasks(table: Table)
    ensures TasksFor(table, table) == []
  {
  }

  // ---- The manager -------------------------------------------------------------------------

  class FleetManager {
    const config: Config
    const manifests: ManifestDir
    const fleetDir: FleetDir
    var shards: Table
    /** The actors spawned after startup, by name, for shutdown to await. */
    var tasks: seq<string>
    /** The birthday each wallet was placed with. */
    ghost var births: map<string, u32>

    constructor (config: Config, manifests: ManifestDir, fleetDir: FleetDir)
      ensures this.config == config && this.manifests == manifests && this.fleetDir == fleetDir
      ensures shards == [] && tasks == [] && births == map[]
    {
      this.config, this.manifests, this.fleetDir := config, manifests, fleetDir;
      shards, tasks, births := [], [], map[];
    }

    ghost function View(registry: Registry): Fleet
      reads this, registry, manifests, fleetDir
    {
      Fleet(shards, registry.names, fleetDir.disk, manifests.files, manifests.loose, births)
    }

    method RegisterShard(index: nat, members: seq<string>, lowest: Option<u32>)
      modifies this`shards
      ensures shards == old(shards) + [Shard(index, set name | name in members, |members|, lowest)]
    {
      shards := shards + [Shard(index, set name | name in members, |members|, lowest)];
    }

    /** The first shard listing `name`. */
    method ShardHolding(name: string) returns (r: Option<nat>)
      ensures r.Some? <==> Holds(shards, name)
      ensures r.Some? ==> r.value < |shards| && name in shards[r.value].members
    {
      for i := 0 to |shards|
        invariant forall j :: 0 <= j < i ==> name !in shards[j].members
      {
        if name in shards[i].members {
          return Some(i);
        }
      }
      r := None;
    }

    /** Whether `place` succeeds: an import the wallet's shard accepts, or a new shard that starts. */
    ghost predicate CanPlace(m: Member, env: Env)
      reads this
    {
      if Holds(shards, m.name) then env.importFailed ==> env.accepted
      else if Target(States(shards), m.birthday, config) < |shards| then env.accepted
      else env.dirMade && env.spawned
    }

    /** `place`, recording the machine states it passes through. */
    method Place(m: Member, env: Env, ghost registry: Registry, ghost c: Call, ghost trace: Trace)
      returns (ok: bool, ghost trace': Trace)
      requires m == c.member && Reaches(config, c, trace, View(registry), Placing)
      modifies this, fleetDir
      ensures Reaches(config, c, trace', View(registry), if ok then Placed else Undoing)
      ensures ok <==> old(CanPlace(m, env))
      ensures old(Holds(shards, m.name)) ==> (ok <==> !env.importFailed || env.accepted)
      ensures old(!Holds(shards, m.name) && |shards| > Target(States(shards), m.birthday, config)) ==>
                (ok <==> env.accepted)
      ensures old(!Holds(shards, m.name) && |shards| == Target(States(shards), m.birthday, config)) ==>
                (ok <==> env.dirMade && env.spawned)
      ensures tasks == old(tasks) + TasksFor(old(shards), shards)
    {
      hide Holds, Reaches, ShardDirName;
      var held := ShardHolding(m.name);
      if held.Some? {
        if env.importFailed {
          trace' := trace + [(View(registry), Requeueing)];
          Extend(config, c, trace, View(registry), Placing, View(registry), Requeueing);
          ok := env.accepted;
          var p := if ok then Placed else Undoing;
          Extend(config, c, trace', View(registry), Requeueing, View(registry), p);
          trace' := trace' + [(View(registry), p)];
          return;
        }
        Extend(config, c, trace, View(registry), Placing, View(registry), Placed);
        trace' := trace + [(View(registry), Placed)];
        return true, trace';
      }
      var placed := PlaceMembers(States(shards), [m], config);
      var index := placed[0];
      if index < |shards| {
        Extend(config, c, trace, View(registry), Placing, View(registry), Handing(index));
        trace' := trace + [(View(registry), Handing(index))];
        ghost var before := View(registry);
        if !env.accepted {
          Extend(config, c, trace', before, Handing(index), before, Undoing);
          trace' := trace' + [(before, Undoing)];
          return false, trace';
        }
        shards := Admit(shards, index, m);
        births := births[m.name := m.birthday];
        Extend(config, c, trace', before, Handing(index), View(registry), Placed);
        trace' := trace' + [(View(registry), Placed)];
        return true, trace';
      }
      ok, trace' := OpenShard(m, index, env, registry, c, trace);
    }

    /** The end of `place`: a directory the disk does not have yet, an actor, a table entry. */
    method OpenShard(m: Member, from: nat, env: Env, ghost registry: Registry, ghost c: Call, ghost trace: Trace)
      returns (ok: bool, ghost trace': Trace)
      requires m == c.member && Reaches(config, c, trace, View(registry), Placing)
      requires !Holds(shards, m.name) && from == Target(States(shards), m.birthday, config) >= |shards|
      modifies this, fleetDir
      ensures Reaches(config, c, trace', View(registry), if ok then Placed else Undoing)
      ensures ok <==> env.dirMade && env.spawned
      ensures tasks == old(tasks) + TasksFor(old(shards), shards)
    {
      hide Holds, Reaches, Target, ShardDirName;
      var index, dir := NextFreeShardDir(fleetDir.disk, from);
      ghost var before := View(registry);
      if !env.dirMade {
        Extend(config, c, trace, before, Placing, before, Undoing);
        trace' := trace + [(before, Undoing)];
        return false, trace';
      }
      fleetDir.disk := fleetDir.disk[dir := Directory];
      ghost var created := View(registry);
      Extend(config, c, trace, before, Placing, created, Spawning(index));
      trace' := trace + [(created, Spawning(index))];
      if !env.spawned {
        Extend(config, c, trace', created, Spawning(index), created, Undoing);
        trace' := trace' + [(created, Undoing)];
        return false, trace';
      }
      tasks := tasks + [dir];
      shards := Open(shards, index, m);
      births := births[m.name := m.birthday];
      Extend(config, c, trace', created, Spawning(index), View(registry), Placed);
      trace' := trace' + [(View(registry), Placed)];
      ok := true;
    }

    /** The request passes the checks made before anything is written. */
    ghost predicate Admissible(registry: Registry, m: Member, env: Env)
      reads registry
    {
      m.name !in registry.names && ValidName(m.name) && env.keyDecodes
    }

    /** And its manifest can be written. */
    ghost predicate CanWrite(registry: Registry, m: Member, env: Env)
      reads registry, manifests
    {
      Admissible(registry, m, env) && ManifestName(m.name) !in manifests.files && env.writeFault.None?
    }

    /**
     `onboard`, with the mutex held from entry to return.  Whatever the outcomes in `env`, the
     call is a path of the machine from entry to return; so an error leaves table, registry and
     manifests as `FailedCleanly` says, and success serves the wallet from exactly one shard.  After
     an error a manifest of the call's own remains exactly when one was written and its removal
     failed.
     */
    method Onboard(registry: Registry, m: Member, persist: bool, env: Env)
      returns (r: Result<(), OnboardError>, ghost trace: Trace)
      requires FleetOk(View(registry))
      modifies this, registry, manifests, fleetDir
      ensures var c := Call(m, persist, Entered, old(View(registry)));
              && Reaches(config, c, trace, View(registry), Finished(r.Ok?))
              && FleetOk(View(registry))
              && (r.Err? ==> FailedCleanly(c, View(registry)) && registry.names == old(registry.names))
              && (r.Err? ==> (NoneAdded(old(manifests.files), manifests.files) <==>
                              !(persist && old(CanWrite(registry, m, env)) && !env.removed)))
              && (r.Ok? ==> SucceededOnce(c, View(registry)) && registry.names == old(registry.names) + {m.name})
      ensures r.Ok? <==> old(Admissible(registry, m, env)) && (persist ==> old(CanWrite(registry, m, env)))
                         && old(CanPlace(m, env))
      ensures r.Ok? <==>
                && m.name !in old(registry.names) && Addressable(m.name) && env.keyDecodes
                && (persist ==> m.name + ".toml" !in old(manifests.files) && env.writeFault.None?)
                && old(CanPlace(m, env))
      ensures r.Ok? ==> '/' !in ManifestName(m.name) && '\\' !in ManifestName(m.name)
      ensures tasks == old(tasks) + TasksFor(old(shards), shards)
      ensures r == Err(NameTaken) <==> m.name in old(registry.names)
      ensures r == Err(BadName) <==>
                && m.name !in old(registry.names)
                && (m.name == ""
                    || exists c | c in m.name ::
                         !('a' <= c <= 'z' || 'A' <= c <= 'Z' || '0' <= c <= '9' || c == '-' || c == '_' || c == '.'))
      ensures r == Err(BadKey) <==> m.name !in old(registry.names) && Addressable(m.name) && !env.keyDecodes
    {
      hide FleetOk, Reaches, FailedCleanly, SucceededOnce, ValidName, CanPlace, ManifestName, NoneAdded, Acts, TasksFor;
      ghost var start := View(registry);
      ghost var c := Call(m, persist, Entered, start);
      ValidNameExact(m.name);
      NamedToml(m.name);
      if Addressable(m.name) {
        ManifestStaysInside(m.name);
      }
      trace := [(start, Entered)];
      Begins(config, c);
      if m.name in registry.names || !ValidName(m.name) || !env.keyDecodes {
        Enters(config, c, trace, start, Finished(false));
        trace := trace + [(start, Finished(false))];
        Concluded(config, c, trace, start, false);
        NothingAdded(start.files);
        NoTasks(shards);
        var why := if m.name in registry.names then NameTaken else if !ValidName(m.name) then BadName else BadKey;
        return Err(why), trace;
      }
      var ok;
      ok, trace := Persist(m, persist, env, registry, c, trace);
      if !ok {
        Concluded(config, c, trace, View(registry), false);
        NoTasks(shards);
        return Err(OnboardFailed), trace;
      }
      ok, trace := Place(m, env, registry, c, trace);
      if ok {
        ghost var before := View(registry);
        registry.names := registry.names + {m.name};
        Serving(config, c, trace, before);
        trace := trace + [(View(registry), Finished(true))];
        Concluded(config, c, trace, View(registry), true);
        return Ok(()), trace;
      }
      trace := RollBack(m, persist, env.removed, registry, c, trace);
      Concluded(config, c, trace, View(registry), false);
      r := Err(OnboardFailed);
    }

    /** The manifest, when there is one to write. */
    method Persist(m: Member, persist: bool, env: Env, ghost registry: Registry, ghost c: Call, ghost trace: Trace)
      returns (ok: bool, ghost trace': Trace)
      requires c.member == m && c.persist == persist && c.entry == View(registry)
      requires Admissible(registry, m, env) && Reaches(config, c, trace, View(registry), Entered)
      modifies manifests
      ensures Reaches(config, c, trace', View(registry), WrittenPoint(ok))
      ensures ok <==> (persist ==> ManifestName(m.name) !in old(manifests.files) && env.writeFault.None?)
      ensures !ok || !persist ==> NoneAdded(old(manifests.files), manifests.files)
      ensures ok && persist ==> Wrote(c, manifests.files) && OnlyOwnAdded(c, manifests.files)
    {
      hide Reaches, ValidName, ManifestName, TempName, IsManifest, Acts;
      ghost var start := View(registry);
      if !persist {
        Enters(config, c, trace, start, Placing);
        return true, trace + [(start, Placing)];
      }
      Enters(config, c, trace, start, Writing(CreateTemp));
      trace' := trace + [(start, Writing(CreateTemp))];
      var written;
      ghost var trail;
      written, trail := manifests.Write(m, env.writeFault, env.torn, env.flushed);
      trace' := WriteFollows(config, c, trace', start, env.writeFault, env.torn, env.flushed);
      WroteAll(start.files, m, env.writeFault, env.torn);
      assert manifests.files in trail;
      OwnManifest(m);
      ok := written.Ok?;
    }

    /** Take the manifest back, if the file system lets us. */
    method RollBack(m: Member, persist: bool, removed: bool, ghost registry: Registry, ghost c: Call,
                    ghost trace: Trace)
      returns (ghost trace': Trace)
      requires c.member == m && c.persist == persist && Reaches(config, c, trace, View(registry), Undoing)
      requires ValidName(m.name)
      requires if persist then Wrote(c, manifests.files) && OnlyOwnAdded(c, manifests.files)
               else NoneAdded(c.entry.files, manifests.files)
      modifies manifests
      ensures Reaches(config, c, trace', View(registry), Finished(false))
      ensures NoneAdded(c.entry.files, manifests.files) <==> !(persist && !removed)
    {
      hide Reaches, ValidName, ManifestName, TempName, IsManifest;
      ghost var before := View(registry);
      if persist && removed {
        manifests.loose := manifests.loose + {(ManifestName(m.name), manifests.files[ManifestName(m.name)])};
        manifests.files := manifests.files - {ManifestName(m.name)};
      }
      OwnManifest(m);
      Extend(config, c, trace, before, Undoing, View(registry), Finished(false));
      trace' := trace + [(View(registry), Finished(false))];
    }
  }

  lemma Enters(config: Config, c: Call, trace: Trace, f: Fleet, p: Point)
    requires Reaches(config, c, trace, f, Entered) && Check(c, f, p)
    ensures Reaches(config, c, trace + [(f, p)], f, p)
  {
    hide Reaches;
    Extend(config, c, trace, f, Entered, f, p);
  }

  lemma Serving(config: Config, c: Call, trace: Trace, f: Fleet)
    requires Reaches(config, c, trace, f, Placed)
    ensures var f' := f.(registry := f.registry + {c.member.name});
            Reaches(config, c, trace + [(f', Finished(true))], f', Finished(true))
  {
    hide Reaches;
    Extend(config, c, trace, f, Placed, f.(registry := f.registry + {c.member.name}), Finished(true));
  }

  lemma NamedToml(name: string)
    ensures ManifestName(name) == name + ".toml"
  {
  }

  lemma NothingAdded(files: Files)
    ensures NoneAdded(files, files)
  {
  }

  lemma Begins(config: Config, c: Call)
    ensures Reaches(config, c, [(c.entry, Entered)], c.entry, Entered)
  {
  }

  lemma Concluded(config: Config, c: Call, trace: Trace, f: Fleet, ok: bool)
    requires c.point.Entered? && FleetOk(c.entry) && Reaches(config, c, trace, f, Finished(ok))
    ensures FleetOk(f) && (ok ==> SucceededOnce(c, f)) && (!ok ==> FailedCleanly(c, f))
  {
    hide FleetOk, FailedCleanly, SucceededOnce, Follows;
    FollowedCall(config, c, trace, |trace| - 1);
  }

  /** A write succeeded exactly when it took all five states. */
  lemma WroteAll(files: Files, m: Member, fault: Option<Step>, torn: Body)
    ensures |WriteTrail(files, m, fault, torn)| == 5 <==> ManifestName(m.name) !in files && fault.None?
  {
    FaultCases(fault);
  }
}
