/**
 Every interleaving of onboardings, cancellations, unloads, crashes and restarts.

 One atomic step is one stretch of `onboard` between two points where it can be suspended or can
 fail.  Each call carries the fleet as it was when it took the `onboarding` mutex, so that what a
 whole call did can be stated when it returns.  Outcomes the fleet does not control - whether a key
 decodes, an actor accepts a member, a file operation succeeds - are free choices.
 */
module FleetMachine {
  import opened Wrappers
  import opened Placement
  import opened ShardDirs
  import opened FleetTable
  import opened FleetPlan
  import opened Manifests

  /**
   What onboarding reads and writes: shard table, registry of served names, the fleet directory, and
   the manifest directory with the entries not yet flushed.  `births` remembers, for reasoning only,
   the birthday each wallet was placed with.
   */
  datatype Fleet = Fleet(
    table: Table, registry: set<string>, disk: Disk, files: Files, loose: Loose, births: map<string, u32>)

  datatype Point =
    | Waiting                // for the onboarding mutex
    | Entered                // about to check the request
    | Writing(step: Step)    // about to run this step of the manifest write
    | Placing                // about to look the name up and choose a shard
    | Requeueing             // awaiting the shard that already lists the wallet
    | Handing(shard: nat)    // awaiting the shard it was assigned to
    | Spawning(index: nat)   // awaiting the actor of a new shard
    | Placed                 // about to enter the registry
    | Undoing                // about to remove the manifest this call wrote
    | Finished(ok: bool)

  datatype Call = Call(member: Member, persist: bool, point: Point, entry: Fleet)

  datatype System = System(fleet: Fleet, holder: Option<nat>, calls: map<nat, Call>)

  predicate HoldsLock(p: Point) {
    !p.Waiting? && !p.Finished?
  }

  /** Where a call awaits somebody else, and so can be dropped with its request. */
  predicate Awaits(p: Point) {
    p.Waiting? || p.Requeueing? || p.Handing? || p.Spawning?
  }

  function ManifestOf(c: Call): string {
    ManifestName(c.member.name)
  }

  function TempOf(c: Call): string {
    TempName(c.member.name)
  }

  // ---- Steps -------------------------------------------------------------------------------

  /** Name, key, and whether there is a manifest to write. */
  ghost predicate Check(c: Call, f: Fleet, p': Point) {
    if c.member.name in f.registry || !ValidName(c.member.name) then p' == Finished(false)
    else p' == Finished(false) || p' == (if c.persist then Writing(CreateTemp) else Placing)
  }

  function NextPoint(step: Step): Point {
    match step
    case CreateTemp => Writing(WriteBody)
    case WriteBody => Writing(Sync)
    case Sync => Writing(Rename)
    case Rename => Placing
  }

  /** A rename is loose until the directory is flushed, which is tried at once but may fail. */
  ghost predicate Renames(c: Call, f: Fleet, f': Fleet) {
    && TempOf(c) in f.files
    && (f'.loose == {} || f'.loose == f.loose + {(ManifestOf(c), f.files[TempOf(c)])})
    && f' == f.(files := Done(f.files, c.member, Rename), loose := f'.loose)
  }

  ghost predicate Write(c: Call, step: Step, f: Fleet, f': Fleet, p': Point) {
    if step.CreateTemp? && ManifestOf(c) in f.files then f' == f && p' == Finished(false)
    else
      || (p' == NextPoint(step)
          && (if step.Rename? then Renames(c, f, f')
              else (step.Sync? ==> TempOf(c) in f.files) && f' == f.(files := Done(f.files, c.member, step))))
      || (p' == Finished(false) && exists torn :: f' == f.(files := Faulted(f.files, c.member, step, torn)))
  }

  ghost predicate Choose(config: Config, c: Call, f: Fleet, f': Fleet, p': Point) {
    if Holds(f.table, c.member.name) then f' == f && (p' == Placed || p' == Requeueing)
    else
      var i := Target(States(f.table), c.member.birthday, config);
      if i < |f.table| then f' == f && p' == Handing(i)
      else
        || (f' == f && p' == Undoing)
        || (p'.Spawning? && IsNextFree(f.disk, i, p'.index) && f' == f.(disk := Created(f.disk, p'.index)))
  }

  /** The fleet once the call's wallet has a place in `table`. */
  ghost function WithPlace(c: Call, f: Fleet, table: Table): Fleet {
    f.(table := table, births := f.births[c.member.name := c.member.birthday])
  }

  /** The rollback: the call's manifest is removed, and the removal not yet flushed. */
  ghost predicate Removes(c: Call, f: Fleet, f': Fleet) {
    && c.persist && ManifestOf(c) in f.files
    && f' == f.(files := f.files - {ManifestOf(c)}, loose := f.loose + {(ManifestOf(c), f.files[ManifestOf(c)])})
  }

  /** One step of the call that holds the mutex. */
  ghost predicate Acts(config: Config, c: Call, f: Fleet, f': Fleet, p': Point) {
    match c.point
    case Entered => f' == f && Check(c, f, p')
    case Writing(step) => Write(c, step, f, f', p')
    case Placing => Choose(config, c, f, f', p')
    case Requeueing => f' == f && (p' == Placed || p' == Undoing)
    case Handing(i) =>
      || (f' == f && p' == Undoing)
      || (i < |f.table| && f' == WithPlace(c, f, Admit(f.table, i, c.member)) && p' == Placed)
    case Spawning(index) =>
      || (f' == f && p' == Undoing)
      || (f' == WithPlace(c, f, Open(f.table, index, c.member)) && p' == Placed)
    case Placed => f' == f.(registry := f.registry + {c.member.name}) && p' == Finished(true)
    case Undoing => p' == Finished(false) && (f' == f || Removes(c, f, f'))
    case Waiting => false
    case Finished(_) => false
  }

  ghost predicate Arrives(s: System, s': System, t: nat) {
    && t !in s.calls
    && exists m, persist :: s' == s.(calls := s.calls[t := Call(m, persist, Waiting, s.fleet)])
  }

  ghost predicate Acquires(s: System, s': System, t: nat) {
    && s.holder.None? && t in s.calls && s.calls[t].point.Waiting?
    && s' == s.(holder := Some(t), calls := s.calls[t := s.calls[t].(point := Entered, entry := s.fleet)])
  }

  ghost predicate Runs(config: Config, s: System, s': System, t: nat) {
    && s.holder == Some(t) && t in s.calls && t in s'.calls
    && Acts(config, s.calls[t], s.fleet, s'.fleet, s'.calls[t].point)
    && s'.calls == s.calls[t := s.calls[t].(point := s'.calls[t].point)]
    && s'.holder == (if HoldsLock(s'.calls[t].point) then Some(t) else None)
  }

  ghost predicate Unloads(s: System, s': System, name: string) {
    s' == s.(fleet := s.fleet.(registry := s.fleet.registry - {name}))
  }

  /** The request a call serves is dropped: the call ends where it is and the mutex is released. */
  ghost predicate Cancels(s: System, s': System, t: nat) {
    && t in s.calls && Awaits(s.calls[t].point)
    && s' == s.(calls := s.calls - {t}, holder := if s.holder == Some(t) then None else s.holder)
  }

  /** Nothing but directories where these shards are to be. */
  ghost predicate Makeable(disk: Disk, layout: Layout) {
    forall i :: 0 <= i < |layout| ==> !Plain(disk, layout[i].0)
  }

  /** A process that serves the members from the planned shards. */
  ghost predicate Up(members: seq<Member>, layout: Layout, f: Fleet) {
    && f.table == Registered(layout) && BornAs(members, f.births)
    && forall m :: m in members ==> m.name in f.registry
  }

  /**
   A startup from the given directories: plan from the manifests, the run of shard directories and
   whatever accounts the shard databases record, make the directories and register the shards.  It
   can fail after making `k` of them, or before any, and then no shard runs.
   */
  ghost predicate Starts(config: Config, disk: Disk, f: Fleet) {
    || (f.table == [] && f.disk == disk)
    || exists members: seq<Member>, placed: map<string, nat>, existing: seq<ShardState>, layout: Layout, k: nat ::
         StartsAs(config, disk, f, members, placed, existing, layout, k)
  }

  ghost predicate StartsAs(config: Config, disk: Disk, f: Fleet, members: seq<Member>, placed: map<string, nat>,
                           existing: seq<ShardState>, layout: Layout, k: nat)
  {
    && DistinctNames(members) && (forall m :: m in members <==> Serves(f.files, m))
    && PrefixEnd(disk, |existing|)
    && IsLayout(layout, members, Homes(members, placed, |existing|, existing, config))
    && k <= |layout| && Makeable(disk, layout[..k]) && f.disk == AllCreated(disk, layout[..k])
    && (f.table == [] || (k == |layout| && Up(members, layout, f)))
  }

  /**
   The process dies at any point and another starts.  If only the process died the manifest
   directory is as it was; a power loss can take back what was not flushed.
   */
  ghost predicate Restarts(config: Config, s: System, s': System) {
    && ((s'.fleet.files == s.fleet.files && s'.fleet.loose == s.fleet.loose)
        || (PowerLoss(s.fleet.files, s.fleet.loose, s'.fleet.files) && s'.fleet.loose == {}))
    && Starts(config, s.fleet.disk, s'.fleet)
    && s'.holder.None? && s'.calls == map[]
  }

  ghost predicate Next(config: Config, s: System, s': System) {
    || (exists t: nat :: Arrives(s, s', t))
    || (exists t: nat :: Acquires(s, s', t))
    || (exists t: nat :: Runs(config, s, s', t))
    || (exists t: nat :: Cancels(s, s', t))
    || (exists name: string :: Unloads(s, s', name))
    || Restarts(config, s, s')
  }

  // ---- The invariant -----------------------------------------------------------------------

  ghost predicate FleetOk(f: Fleet) {
    TableOk(f.table) && OnDisk(f.table, f.disk) && Floors(f.table, f.births)
  }

  /** The mutex admits one call at a time. */
  ghost predicate Exclusive(s: System) {
    && (forall t :: t in s.calls && HoldsLock(s.calls[t].point) ==> s.holder == Some(t))
    && (s.holder.Some? ==> s.holder.value in s.calls && HoldsLock(s.calls[s.holder.value].point))
  }

  /** Manifests that were there when the call began are there, unaltered. */
  ghost predicate ManifestsKept(entry: Files, now: Files) {
    forall file :: file in entry && IsManifest(file) ==> file in now && now[file] == entry[file]
  }

  /** The only manifest the call can have added is its own, complete. */
  ghost predicate OnlyOwnAdded(c: Call, now: Files) {
    forall file :: file in now && IsManifest(file) && file !in c.entry.files ==>
      c.persist && file == ManifestOf(c) && now[file] == File(Whole(c.member), true)
  }

  ghost predicate NoneAdded(entry: Files, now: Files) {
    forall file :: file in now && IsManifest(file) ==> file in entry
  }

  /** What the manifest write has achieved when `step` comes next. */
  ghost predicate Prepared(c: Call, step: Step, files: Files) {
    && c.persist && NoneAdded(c.entry.files, files)
    && (!step.CreateTemp? ==> ManifestOf(c) !in c.entry.files && TempOf(c) in files)
    && (step.Sync? ==> files[TempOf(c)].body == Whole(c.member))
    && (step.Rename? ==> files[TempOf(c)] == File(Whole(c.member), true))
  }

  /** The call's wallet has a place, the one it had or a new one, and nobody else moved. */
  ghost predicate PlacedOnce(c: Call, f: Fleet) {
    && Holds(f.table, c.member.name)
    && (forall name :: name != c.member.name ==> (Holds(f.table, name) <==> Holds(c.entry.table, name)))
    && (if Holds(c.entry.table, c.member.name) then f.table == c.entry.table && f.births == c.entry.births
        else f.births == c.entry.births[c.member.name := c.member.birthday])
  }

  ghost predicate Unplaced(c: Call, f: Fleet) {
    f.table == c.entry.table && f.births == c.entry.births
  }

  /** Where the table stands relative to the one the call found. */
  ghost predicate TableSoFar(config: Config, c: Call, f: Fleet) {
    match c.point
    case Handing(i) =>
      && Unplaced(c, f) && !Holds(f.table, c.member.name)
      && i < |f.table| && f.table[i].accounts < config.shardSize
    case Spawning(index) =>
      && Unplaced(c, f) && !Holds(f.table, c.member.name)
      && Reached(f.disk, index) && forall i :: 0 <= i < |f.table| ==> f.table[i].index != index
    case Requeueing => Unplaced(c, f) && Holds(f.table, c.member.name)
    case Placed => PlacedOnce(c, f)
    case _ => Unplaced(c, f)
  }

  /** The call wrote its manifest, which was not there before and is complete. */
  ghost predicate Wrote(c: Call, files: Files) {
    ManifestOf(c) !in c.entry.files && ManifestOf(c) in files && files[ManifestOf(c)] == File(Whole(c.member), true)
  }

  ghost predicate CallOk(config: Config, c: Call, f: Fleet) {
    && TableSoFar(config, c, f)
    && f.registry <= c.entry.registry
    && (!c.point.Entered? ==> ValidName(c.member.name))
    && ManifestsKept(c.entry.files, f.files) && OnlyOwnAdded(c, f.files)
    && (c.point.Writing? ==> Prepared(c, c.point.step, f.files))
    && (c.point.Entered? ==> NoneAdded(c.entry.files, f.files))
    && (c.persist && !c.point.Entered? && !c.point.Writing? ==> Wrote(c, f.files))
  }

  ghost predicate Inv(config: Config, s: System) {
    && FleetOk(s.fleet) && Exclusive(s)
    && (s.holder.Some? ==> CallOk(config, s.calls[s.holder.value], s.fleet))
  }

  // ---- Every step keeps it -----------------------------------------------------------------

  /** A call that returned an error. */
  ghost predicate FailedCleanly(c: Call, f: Fleet) {
    && Unplaced(c, f) && f.registry <= c.entry.registry
    && ManifestsKept(c.entry.files, f.files) && OnlyOwnAdded(c, f.files)
  }

  /** It left a manifest of its own exactly when its last step was a removal that failed. */
  ghost predicate RolledBack(c: Call, f: Fleet, f': Fleet) {
    NoneAdded(c.entry.files, f'.files) <==> !(c.point.Undoing? && c.persist && f' == f)
  }

  /** A call that succeeded: served, in a shard, manifested if asked to be, and nobody else moved. */
  ghost predicate SucceededOnce(c: Call, f: Fleet) {
    && c.member.name in f.registry && PlacedOnce(c, f)
    && (c.persist ==> Wrote(c, f.files))
    && ManifestsKept(c.entry.files, f.files) && OnlyOwnAdded(c, f.files)
  }

  /** Registered shards stay, keep their directory and members, and grow only up to `size`. */
  ghost predicate GrowsWithin(table: Table, table': Table, size: nat) {
    && |table| <= |table'|
    && forall i :: 0 <= i < |table| ==>
         && table'[i].index == table[i].index && table[i].members <= table'[i].members
         && (table'[i].accounts == table[i].accounts || table'[i].accounts <= size)
  }

  ghost predicate StepOk(config: Config, c: Call, f: Fleet, f': Fleet, p': Point) {
    && FleetOk(f') && GrowsWithin(f.table, f'.table, config.shardSize)
    && (HoldsLock(p') ==> CallOk(config, c.(point := p'), f'))
    && (p' == Finished(false) ==> FailedCleanly(c, f') && RolledBack(c, f, f'))
    && (p' == Finished(true) ==> SucceededOnce(c, f'))
  }

  lemma WriteOk(config: Config, c: Call, step: Step, f: Fleet, f': Fleet, p': Point)
    requires FleetOk(f) && c.point == Writing(step) && CallOk(config, c, f) && Write(c, step, f, f', p')
    ensures StepOk(config, c, f, f', p')
  {
    hide ManifestName, TempName, Stem, Extension, TableOk, OnDisk, Floors;
    ManifestNameParts(c.member.name);
    TempNeverManifest(c.member.name, c.member.name);
    assert IsManifest(ManifestOf(c)) && !IsManifest(TempOf(c));
  }

  lemma TargetHasRoom(table: Table, m: Member, config: Config)
    ensures var i := Target(States(table), m.birthday, config); i < |table| ==> table[i].accounts < config.shardSize
  {
  }

  lemma ChooseOk(config: Config, c: Call, f: Fleet, f': Fleet, p': Point)
    requires FleetOk(f) && c.point.Placing? && CallOk(config, c, f) && Choose(config, c, f, f', p')
    ensures StepOk(config, c, f, f', p')
  {
    hide ManifestName, TempName, Stem, Extension, Target, TableOk, OnDisk, Floors, Exists, IsDir, Holds;
    if p'.Spawning? {
      NewShardOnDisk(f.table, f.disk, p'.index);
    }
    if p'.Handing? {
      TargetHasRoom(f.table, c.member, config);
    }
  }

  lemma PlacedOk(config: Config, c: Call, f: Fleet, f': Fleet, p': Point)
    requires FleetOk(f) && (c.point.Handing? || c.point.Spawning?) && CallOk(config, c, f) && Acts(config, c, f, f', p')
    ensures StepOk(config, c, f, f', p')
  {
    hide ManifestName, TempName, Stem, Extension, TableOk, Floors, Exists, IsDir, Holds, Reached;
    if c.point.Handing? && p'.Placed? {
      AdmitOk(f.table, c.point.shard, c.member);
      AdmitFloors(f.table, c.point.shard, c.member, f.births);
      assert OnDisk(f'.table, f'.disk);
    }
    if c.point.Spawning? && p'.Placed? {
      OpenOk(f.table, c.point.index, c.member);
      OpenFloors(f.table, c.point.index, c.member, f.births);
      assert OnDisk(f'.table, f'.disk);
    }
  }

  lemma UndoOk(config: Config, c: Call, f: Fleet, f': Fleet)
    requires FleetOk(f) && c.point.Undoing? && CallOk(config, c, f)
    requires f' == f || Removes(c, f, f')
    ensures StepOk(config, c, f, f', Finished(false))
  {
    hide ManifestName, TempName, Stem, Extension, TableOk, OnDisk, Floors;
    ManifestNameParts(c.member.name);
    assert IsManifest(ManifestOf(c));
  }

  lemma ActsOk(config: Config, c: Call, f: Fleet, f': Fleet, p': Point)
    requires FleetOk(f) && HoldsLock(c.point) && CallOk(config, c, f) && Acts(config, c, f, f', p')
    ensures StepOk(config, c, f, f', p')
  {
    hide ManifestName, TempName, Stem, Extension, TableOk, Holds, OnDisk, Floors, Write, Choose, Admit, Open;
    match c.point
    case Entered =>
    case Writing(step) => WriteOk(config, c, step, f, f', p');
    case Placing => ChooseOk(config, c, f, f', p');
    case Requeueing =>
    case Handing(_) => PlacedOk(config, c, f, f', p');
    case Spawning(_) => PlacedOk(config, c, f, f', p');
    case Placed =>
    case Undoing => UndoOk(config, c, f, f');
  }

  lemma RunsKeepInv(config: Config, s: System, s': System, t: nat)
    requires Inv(config, s) && Runs(config, s, s', t)
    ensures Inv(config, s') && StepOk(config, s.calls[t], s.fleet, s'.fleet, s'.calls[t].point)
  {
    hide FleetOk, CallOk, Acts;
    ActsOk(config, s.calls[t], s.fleet, s'.fleet, s'.calls[t].point);
  }

  lemma UnloadsKeepInv(config: Config, s: System, s': System, name: string)
    requires Inv(config, s) && Unloads(s, s', name)
    ensures Inv(config, s')
  {
    hide TableOk, Holds, OnDisk, Floors, ManifestsKept, OnlyOwnAdded, NoneAdded, ValidName, Reached;
  }

  lemma AcquiresKeepInv(config: Config, s: System, s': System, t: nat)
    requires Inv(config, s) && Acquires(s, s', t)
    ensures Inv(config, s')
  {
    hide FleetOk, ValidName, IsManifest;
  }

  lemma ArrivesKeepInv(config: Config, s: System, s': System, t: nat)
    requires Inv(config, s) && Arrives(s, s', t)
    ensures Inv(config, s')
  {
    hide FleetOk, CallOk;
  }

  lemma CancelsKeepInv(config: Config, s: System, s': System, t: nat)
    requires Inv(config, s) && Cancels(s, s', t)
    ensures Inv(config, s')
  {
    hide FleetOk, CallOk;
  }

  lemma EmptyTable(disk: Disk, births: map<string, u32>)
    ensures TableOk([]) && OnDisk([], disk) && Floors([], births)
  {
  }

  /** Whatever a startup finds, the table it ends with is well formed and on disk. */
  lemma StartsOk(config: Config, disk: Disk, f: Fleet)
    requires Starts(config, disk, f)
    ensures FleetOk(f)
  {
    hide TableOk, OnDisk, Floors, IsLayout, Homes, PrefixEnd, Serves, AllCreated, Makeable, Up;
    if f.table == [] {
      EmptyTable(f.disk, f.births);
    } else {
      var members: seq<Member>, placed: map<string, nat>, existing: seq<ShardState>, layout: Layout, k: nat :|
        StartsAs(config, disk, f, members, placed, existing, layout, k);
      UpOk(config, disk, f, members, placed, existing, layout, k);
    }
  }

  lemma UpOk(config: Config, disk: Disk, f: Fleet, members: seq<Member>, placed: map<string, nat>,
             existing: seq<ShardState>, layout: Layout, k: nat)
    requires StartsAs(config, disk, f, members, placed, existing, layout, k) && k == |layout| && Up(members, layout, f)
    ensures FleetOk(f)
    ensures forall name :: Holds(f.table, name) <==> name in NamesOf(members)
  {
    hide TableOk, Floors, IsLayout, Homes, PrefixEnd, Exists, IsDir, AllCreated, Serves, Holds, NamesOf;
    var homes := Homes(members, placed, |existing|, existing, config);
    assert layout[..k] == layout;
    StartupTableOk(layout, members, homes);
    StartupFound(layout, members, placed, existing, config, disk);
    StartupFloors(layout, members, homes, f.births);
    ExistsFromDir(f.disk);
    forall i | 0 <= i < |f.table| ensures Reached(f.disk, f.table[i].index) {
      assert InPrefix(f.disk, layout[i].0);
    }
    forall name ensures Holds(f.table, name) <==> name in NamesOf(members) {
      StartupHolds(layout, members, homes, name);
    }
  }

  lemma RestartsKeepInv(config: Config, s: System, s': System)
    requires Restarts(config, s, s')
    ensures Inv(config, s')
  {
    hide FleetOk, Starts, PowerLoss;
    StartsOk(config, s.fleet.disk, s'.fleet);
  }

  lemma NextKeepsInv(config: Config, s: System, s': System)
    requires Inv(config, s) && Next(config, s, s')
    ensures Inv(config, s')
  {
    hide Inv, Arrives, Acquires, Runs, Cancels, Unloads, Restarts;
    if t: nat :| Arrives(s, s', t) {
      ArrivesKeepInv(config, s, s', t);
    } else if t: nat :| Acquires(s, s', t) {
      AcquiresKeepInv(config, s, s', t);
    } else if t: nat :| Runs(config, s, s', t) {
      RunsKeepInv(config, s, s', t);
    } else if t: nat :| Cancels(s, s', t) {
      CancelsKeepInv(config, s, s', t);
    } else if name: string :| Unloads(s, s', name) {
      UnloadsKeepInv(config, s, s', name);
    } else {
      RestartsKeepInv(config, s, s');
    }
  }

  // ---- Whole runs --------------------------------------------------------------------------

  /** Before the first startup: no shard runs and no call is in flight; the directories are arbitrary. */
  ghost predicate Boots(s: System) {
    s.fleet.table == [] && s.holder.None? && s.calls == map[]
  }

  ghost predicate IsRun(config: Config, run: seq<System>) {
    && run != [] && Boots(run[0])
    && forall i :: 0 <= i < |run| - 1 ==> Next(config, run[i], run[i + 1])
  }

  lemma {:induction false} RunSafe(config: Config, run: seq<System>, i: nat)
    requires IsRun(config, run) && i < |run|
    ensures Inv(config, run[i])
  {
    if i > 0 {
      RunSafe(config, run, i - 1);
      NextKeepsInv(config, run[i - 1], run[i]);
    }
  }

  /**
   At every moment of every run: no wallet is in two shards, no two shards share a directory, each
   shard's account count is its number of members, its lowest birthday is the least its members were
   placed with, and a restart would find it exactly when the fleet directory, as it was before the
   first startup, had nothing but directories at the shard paths below it.
   */
  lemma FleetSound(config: Config, run: seq<System>, n: nat)
    requires IsRun(config, run) && n < |run|
    ensures var f := run[n].fleet;
            && (forall i, j, name | 0 <= i < |f.table| && 0 <= j < |f.table| ::
                  name in f.table[i].members && name in f.table[j].members ==> i == j)
            && (forall i, j | 0 <= i < |f.table| && 0 <= j < |f.table| ::
                  ShardDirName(f.table[i].index) == ShardDirName(f.table[j].index) ==> i == j)
            && (forall i :: 0 <= i < |f.table| ==> f.table[i].accounts == |f.table[i].members|)
            && Floors(f.table, f.births)
            && (forall i :: 0 <= i < |f.table| ==>
                  (InPrefix(f.disk, f.table[i].index) <==>
                   forall j: nat :: j < f.table[i].index ==> !Plain(run[0].fleet.disk, j)))
  {
    hide ShardDirName, InPrefix, Reached, Floors, Plain;
    RunSafe(config, run, n);
    var f := run[n].fleet;
    forall i, j | 0 <= i < |f.table| && 0 <= j < |f.table|
      ensures ShardDirName(f.table[i].index) == ShardDirName(f.table[j].index) ==> i == j
    {
      if ShardDirName(f.table[i].index) == ShardDirName(f.table[j].index) {
        ShardDirNameInjective(f.table[i].index, f.table[j].index);
      }
    }
    forall i | 0 <= i < |f.table|
      ensures InPrefix(f.disk, f.table[i].index) <==>
              forall j: nat :: j < f.table[i].index ==> !Plain(run[0].fleet.disk, j)
    {
      ReachedInPrefix(f.disk, f.table[i].index);
      forall j: nat ensures Plain(f.disk, j) <==> Plain(run[0].fleet.disk, j) {
        PlainFixed(config, run, n, j);
      }
    }
  }

  /** Nothing in the fleet makes, removes or overwrites what is not a directory. */
  lemma {:induction false} PlainFixed(config: Config, run: seq<System>, n: nat, j: nat)
    requires IsRun(config, run) && n < |run|
    ensures Plain(run[n].fleet.disk, j) <==> Plain(run[0].fleet.disk, j)
  {
    if n > 0 {
      hide Next, Plain;
      PlainFixed(config, run, n - 1, j);
      NextKeepsPlain(config, run[n - 1], run[n], j);
    }
  }

  lemma NextKeepsPlain(config: Config, s: System, s': System, j: nat)
    requires Next(config, s, s')
    ensures Plain(s'.fleet.disk, j) <==> Plain(s.fleet.disk, j)
  {
    hide Arrives, Acquires, Runs, Cancels, Unloads, Starts, PowerLoss, Plain;
    if t: nat :| Runs(config, s, s', t) {
      RunsKeepPlain(config, s, s', t, j);
    } else if Restarts(config, s, s') {
      StartsKeepPlain(config, s.fleet.disk, s'.fleet, j);
    } else {
      OthersKeepDisk(config, s, s');
    }
  }

  lemma OthersKeepDisk(config: Config, s: System, s': System)
    requires Next(config, s, s') && !Restarts(config, s, s') && !exists t: nat :: Runs(config, s, s', t)
    ensures s'.fleet.disk == s.fleet.disk
  {
    hide Runs, Restarts, Awaits;
  }

  lemma RunsKeepPlain(config: Config, s: System, s': System, t: nat, j: nat)
    requires Runs(config, s, s', t)
    ensures Plain(s'.fleet.disk, j) <==> Plain(s.fleet.disk, j)
  {
    hide Holds, Done, Faulted, Exists, IsDir, Created, Target;
    var p' := s'.calls[t].point;
    if s'.fleet.disk != s.fleet.disk {
      CreatedIsDir(s.fleet.disk, p'.index, j);
    }
  }

  lemma StartsKeepPlain(config: Config, disk: Disk, f: Fleet, j: nat)
    requires Starts(config, disk, f)
    ensures Plain(f.disk, j) <==> Plain(disk, j)
  {
    hide IsLayout, Homes, PrefixEnd, Serves, Up, DistinctNames, Exists, IsDir, AllCreated;
    if f.disk != disk {
      var members: seq<Member>, placed: map<string, nat>, existing: seq<ShardState>, layout: Layout, k: nat :|
        StartsAs(config, disk, f, members, placed, existing, layout, k);
      AllCreatedIsDir(disk, layout[..k], j);
    }
  }

  /** At most one onboarding is past the mutex, in every interleaving. */
  lemma OneAtATime(config: Config, run: seq<System>, n: nat, t: nat, u: nat)
    requires IsRun(config, run) && n < |run| && t in run[n].calls && u in run[n].calls
    requires HoldsLock(run[n].calls[t].point) && HoldsLock(run[n].calls[u].point)
    ensures t == u
  {
    RunSafe(config, run, n);
  }

  /**
   When an onboarding returns an error, or success, this is what the whole call did.  An error leaves
   a manifest of the call's own exactly when its removal was tried and failed.
   */
  lemma CallReturns(config: Config, run: seq<System>, n: nat, t: nat)
    requires IsRun(config, run) && n + 1 < |run| && Runs(config, run[n], run[n + 1], t)
    ensures run[n + 1].calls[t].point == Finished(false) ==>
              && FailedCleanly(run[n].calls[t], run[n + 1].fleet)
              && RolledBack(run[n].calls[t], run[n].fleet, run[n + 1].fleet)
    ensures run[n + 1].calls[t].point == Finished(true) ==> SucceededOnce(run[n].calls[t], run[n + 1].fleet)
    ensures GrowsWithin(run[n].fleet.table, run[n + 1].fleet.table, config.shardSize)
  {
    hide IsRun, Inv, Runs, FailedCleanly, RolledBack, SucceededOnce, GrowsWithin;
    RunSafe(config, run, n);
    RunsKeepInv(config, run[n], run[n + 1], t);
  }

  /**
   A call dropped while it held the mutex has changed neither table nor registry.  Nothing removes
   the manifest it wrote, so it leaves one exactly when it was asked to write one.
   */
  lemma CallCancelled(config: Config, run: seq<System>, n: nat, t: nat)
    requires IsRun(config, run) && n + 1 < |run| && Cancels(run[n], run[n + 1], t) && run[n].holder == Some(t)
    ensures run[n + 1].fleet == run[n].fleet && run[n + 1].holder.None?
    ensures FailedCleanly(run[n].calls[t], run[n + 1].fleet)
    ensures NoneAdded(run[n].calls[t].entry.files, run[n + 1].fleet.files) <==> !run[n].calls[t].persist
  {
    hide IsRun, FleetOk, Holds, ManifestName, Extension, ValidName, Reached, Floors;
    RunSafe(config, run, n);
    OwnManifest(run[n].calls[t].member);
  }

  /** No step of an onboarding for a wallet that already has a shard changes the table. */
  lemma ReloadKeepsTable(config: Config, run: seq<System>, n: nat, t: nat)
    requires IsRun(config, run) && n + 1 < |run| && Runs(config, run[n], run[n + 1], t)
    requires Holds(run[n].fleet.table, run[n].calls[t].member.name)
    ensures run[n + 1].fleet.table == run[n].fleet.table && run[n + 1].fleet.disk == run[n].fleet.disk
  {
    hide IsRun, FleetOk, Holds, Done, Faulted;
    RunSafe(config, run, n);
  }

  /** The documented rule, on a registered shard. */
  predicate Admits(s: Shard, m: Member, config: Config) {
    s.accounts < config.shardSize && (s.lowest.None? || s.lowest.value - m.birthday <= config.cohortDepth)
  }

  /**
   A wallet without a shard is handed to the newest registered shard with room whose cohort its
   birthday belongs to; a new one is opened only when there is none.
   */
  lemma ChoiceFollowsRule(config: Config, s: System, s': System, t: nat)
    requires Runs(config, s, s', t) && s.calls[t].point.Placing?
    requires var m := s.calls[t].member;
             !Holds(s.fleet.table, m.name) && m.birthday + config.cohortDepth < 0x1_0000_0000
    ensures var m, table, p := s.calls[t].member, s.fleet.table, s'.calls[t].point;
            && (p.Handing? <==> exists i :: 0 <= i < |table| && Admits(table[i], m, config))
            && (p.Handing? ==>
                  && p.shard < |table| && Admits(table[p.shard], m, config)
                  && forall i :: p.shard < i < |table| ==> !Admits(table[i], m, config))
  {
    hide Holds, Target, IsNextFree, Created;
    var m, table := s.calls[t].member, s.fleet.table;
    TargetFollowsRule(States(table), m.birthday, config);
    assert forall i :: 0 <= i < |table| ==>
      (MayJoin(States(table)[i], m.birthday, config) <==> Admits(table[i], m, config));
  }

  /** A new shard's directory did not exist and is the least that did not. */
  lemma NewShardIsLeastFree(config: Config, run: seq<System>, n: nat, t: nat)
    requires IsRun(config, run) && n + 1 < |run| && Runs(config, run[n], run[n + 1], t)
    requires !run[n].calls[t].point.Spawning? && run[n + 1].calls[t].point.Spawning?
    ensures var disk, index := run[n].fleet.disk, run[n + 1].calls[t].point.index;
            !Exists(disk, index) && (forall j :: 0 <= j < index ==> Exists(disk, j))
            && run[n + 1].fleet.disk == Created(disk, index)
  {
    hide IsRun, Holds, Done, Faulted, Exists, IsDir, TableOk, OnDisk, Floors, Created;
    RunSafe(config, run, n);
    assert run[n].calls[t].point.Placing?;
    NewShardOnDisk(run[n].fleet.table, run[n].fleet.disk, run[n + 1].calls[t].point.index);
  }

  // ---- Manifests over whole runs -----------------------------------------------------------

  /** A manifest on disk, entry and contents, that was there before any call now holding the mutex. */
  ghost predicate Settled(s: System, file: string) {
    && IsManifest(file) && file in s.fleet.files && s.fleet.files[file].synced && !IsLoose(s.fleet.loose, file)
    && (s.holder.Some? && s.holder.value in s.calls ==> file in s.calls[s.holder.value].entry.files)
  }

  ghost predicate StaysSettled(s: System, s': System, file: string) {
    && Settled(s, file) && Settled(s', file)
    && s'.fleet.files[file] == s.fleet.files[file]
  }

  /** What a step does to a manifest that was there before the call. */
  lemma ActsKeepSettled(config: Config, c: Call, f: Fleet, f': Fleet, p': Point, file: string)
    requires HoldsLock(c.point) && CallOk(config, c, f) && Acts(config, c, f, f', p')
    requires IsManifest(file) && file in c.entry.files && file in f.files && !IsLoose(f.loose, file)
    ensures file in f'.files && f'.files[file] == f.files[file] && !IsLoose(f'.loose, file)
  {
    hide ManifestName, TempName, Stem, Extension, Choose, Admit, Open, ValidName, TableSoFar, Check;
    if c.point.Writing? {
      ManifestNameParts(c.member.name);
      assert file != TempOf(c);
    } else if c.point.Placing? {
      ChooseKeepsFiles(config, c, f, f', p');
    }
  }

  lemma ChooseKeepsFiles(config: Config, c: Call, f: Fleet, f': Fleet, p': Point)
    requires Choose(config, c, f, f', p')
    ensures f'.files == f.files && f'.loose == f.loose
  {
  }

  lemma PowerLossKeepsSettled(files: Files, loose: Loose, after: Files, file: string)
    requires PowerLoss(files, loose, after)
    requires IsManifest(file) && file in files && files[file].synced && !IsLoose(loose, file)
    ensures file in after && after[file] == files[file]
  {
    hide IsLoose;
    LooseEntries(loose, file);
  }

  lemma NextKeepsSettled(config: Config, s: System, s': System, file: string)
    requires Inv(config, s) && Next(config, s, s') && Settled(s, file)
    ensures StaysSettled(s, s', file)
  {
    hide FleetOk, CallOk, IsManifest, Acts, Starts, PowerLoss, IsLoose;
    if t: nat :| Runs(config, s, s', t) {
      ActsKeepSettled(config, s.calls[t], s.fleet, s'.fleet, s'.calls[t].point, file);
    } else if Restarts(config, s, s') {
      if PowerLoss(s.fleet.files, s.fleet.loose, s'.fleet.files) && s'.fleet.loose == {} {
        PowerLossKeepsSettled(s.fleet.files, s.fleet.loose, s'.fleet.files, file);
        NothingLoose(file);
      }
    }
  }

  lemma NothingLoose(file: string)
    ensures !IsLoose({}, file)
  {
  }

  /**
   A settled manifest stays, unaltered, through every later onboarding, cancellation, crash, power
   loss and restart.
   */
  lemma {:induction false} SettledStays(config: Config, run: seq<System>, i: nat, n: nat, file: string)
    requires IsRun(config, run) && i <= n < |run| && Settled(run[i], file)
    ensures StaysSettled(run[i], run[n], file)
    decreases n
  {
    hide Inv, Settled, Next, StaysSettled;
    if i == n {
      AlreadySettled(run[i], file);
    } else {
      SettledStays(config, run, i, n - 1, file);
      RunSafe(config, run, n - 1);
      ThenSettled(config, run[i], run[n - 1], run[n], file);
    }
  }

  lemma AlreadySettled(s: System, file: string)
    requires Settled(s, file)
    ensures StaysSettled(s, s, file)
  {
  }

  lemma ThenSettled(config: Config, first: System, s: System, s': System, file: string)
    requires Inv(config, s) && Next(config, s, s') && StaysSettled(first, s, file)
    ensures StaysSettled(first, s', file)
  {
    hide Inv, Next, IsManifest, IsLoose;
    NextKeepsSettled(config, s, s', file);
  }

  /** A restart that comes up serves, from one shard, every wallet whose manifest is there. */
  lemma RestartServes(config: Config, s: System, s': System, m: Member)
    requires Restarts(config, s, s') && s'.fleet.table != [] && Serves(s'.fleet.files, m)
    ensures Holds(s'.fleet.table, m.name) && m.name in s'.fleet.registry
  {
    hide IsLayout, Homes, PrefixEnd, Makeable, AllCreated, Registered, BornAs, PowerLoss, Serves, Holds;
    var disk, f := s.fleet.disk, s'.fleet;
    var members: seq<Member>, placed: map<string, nat>, existing: seq<ShardState>, layout: Layout, k: nat :|
      StartsAs(config, disk, f, members, placed, existing, layout, k);
    UpOk(config, disk, f, members, placed, existing, layout, k);
    var i :| 0 <= i < |members| && members[i] == m;
    assert m.name in NamesOf(members);
  }

  /**
   Onboarded for good: once a call that wrote a manifest has succeeded, and unless the directory flush
   failed, every later restart that comes up serves the wallet.
   */
  lemma OnboardedForGood(config: Config, run: seq<System>, n: nat, t: nat, k: nat)
    requires IsRun(config, run) && n + 1 < |run| && Runs(config, run[n], run[n + 1], t)
    requires run[n].calls[t].persist && run[n + 1].calls[t].point == Finished(true)
    requires !IsLoose(run[n + 1].fleet.loose, ManifestOf(run[n].calls[t]))
    requires n < k && k + 1 < |run| && Restarts(config, run[k], run[k + 1]) && run[k + 1].fleet.table != []
    ensures var name := run[n].calls[t].member.name;
            Holds(run[k + 1].fleet.table, name) && name in run[k + 1].fleet.registry
  {
    hide IsRun, FleetOk, Restarts, Acts, IsLoose, PlacedOnce, ManifestsKept, OnlyOwnAdded, NoneAdded;
    hide ManifestName, Read, IsManifest, Holds, ValidName, TableSoFar, Prepared;
    var c := run[n].calls[t];
    RunSafe(config, run, n);
    CallReturns(config, run, n, t);
    SucceededAtPlaced(config, c, run[n].fleet, run[n + 1].fleet);
    ReadsBack(c.member);
    assert Settled(run[n + 1], ManifestOf(c));
    SettledStays(config, run, n + 1, k + 1, ManifestOf(c));
    RestartServes(config, run[k], run[k + 1], c.member);
  }

  lemma SucceededAtPlaced(config: Config, c: Call, f: Fleet, f': Fleet)
    requires Acts(config, c, f, f', Finished(true))
    ensures c.point.Placed?
  {
  }
}
