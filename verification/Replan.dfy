/**
 The placement record is the shard databases themselves: reading them back at startup, and why a
 plan made after every wallet was imported serves each wallet from the shard it already has.
 */
module Replan {
  import opened Wrappers
  import opened Placement
  import opened ShardDirs
  import opened FleetTable
  import opened FleetPlan

  /** An account in a shard's database; `name` is the wallet it serves. */
  datatype Account = Account(name: Option<string>, birthday: u32)

  ghost predicate Named(accounts: seq<Account>, name: string) {
    exists a :: a in accounts && a.name == Some(name)
  }

  /** `state` is what a database with these accounts amounts to. */
  ghost predicate IsStateOf(state: ShardState, accounts: seq<Account>) {
    && state.accounts == |accounts|
    && (state.lowest.None? <==> accounts == [])
    && (state.lowest.Some? ==>
          && (forall a :: a in accounts ==> state.lowest.value <= a.birthday)
          && (exists a :: a in accounts && a.birthday == state.lowest.value))
  }

  method InspectShard(index: nat, accounts: seq<Account>, placed: map<string, nat>)
    returns (state: ShardState, placed': map<string, nat>)
    ensures IsStateOf(state, accounts)
    ensures forall name :: name in placed' <==> name in placed || Named(accounts, name)
    ensures forall name :: name in placed' ==>
              placed'[name] == if Named(accounts, name) then index else placed[name]
  {
    hide Lowest;
    placed' := placed;
    var lowest: Option<u32> := None;
    for n := 0 to |accounts|
      invariant IsStateOf(ShardState(n, lowest), accounts[..n])
      invariant forall name :: name in placed' <==> name in placed || Named(accounts[..n], name)
      invariant forall name :: name in placed' ==>
        placed'[name] == if Named(accounts[..n], name) then index else placed[name]
    {
      var a := accounts[n];
      assert accounts[..n + 1] == accounts[..n] + [a];
      NamedSnoc(accounts[..n], a);
      StateSnoc(ShardState(n, lowest), accounts[..n], a);
      if a.name.Some? {
        placed' := placed'[a.name.value := index];
      }
      lowest := Some(Lowest(lowest, a.birthday));
    }
    assert accounts[..|accounts|] == accounts;
    state := ShardState(|accounts|, lowest);
  }

  lemma NamedSnoc(accounts: seq<Account>, a: Account)
    ensures forall name :: Named(accounts + [a], name) <==> Named(accounts, name) || a.name == Some(name)
  {
    assert a in accounts + [a];
    assert forall b :: b in accounts + [a] <==> b in accounts || b == a;
  }

  lemma StateSnoc(state: ShardState, accounts: seq<Account>, a: Account)
    requires IsStateOf(state, accounts)
    ensures IsStateOf(Join(state, a.birthday), accounts + [a])
  {
    assert a in accounts + [a];
    assert forall b :: b in accounts + [a] <==> b in accounts || b == a;
  }

  /** `placed` gives, for every name in some database, the last one that has it. */
  ghost predicate Records(databases: seq<seq<Account>>, placed: map<string, nat>) {
    && (forall i, name :: 0 <= i < |databases| && Named(databases[i], name) ==> name in placed && i <= placed[name])
    && (forall name :: name in placed ==> placed[name] < |databases| && Named(databases[placed[name]], name))
  }

  /** Every shard in turn; `None` when a database cannot be opened. */
  method InspectShards(dirs: seq<string>, databases: map<string, seq<Account>>)
    returns (r: Option<(map<string, nat>, seq<ShardState>)>)
    ensures r.Some? <==> forall i :: 0 <= i < |dirs| ==> dirs[i] in databases
    ensures r.Some? ==>
              var found := seq(|dirs|, i requires 0 <= i < |dirs| => databases[dirs[i]]);
              && Records(found, r.value.0) && |r.value.1| == |dirs|
              && forall i :: 0 <= i < |dirs| ==> IsStateOf(r.value.1[i], found[i])
  {
    hide Named, IsStateOf;
    var placed: map<string, nat>, existing: seq<ShardState> := map[], [];
    ghost var found: seq<seq<Account>> := [];
    for n := 0 to |dirs|
      invariant |found| == n == |existing| && Records(found, placed)
      invariant forall i :: 0 <= i < n ==>
        dirs[i] in databases && found[i] == databases[dirs[i]] && IsStateOf(existing[i], found[i])
    {
      if dirs[n] !in databases {
        return None;
      }
      var accounts := databases[dirs[n]];
      var state, placed' := InspectShard(n, accounts, placed);
      placed, existing, found := placed', existing + [state], found + [accounts];
    }
    assert found == seq(|dirs|, i requires 0 <= i < |dirs| => databases[dirs[i]]);
    r := Some((placed, existing));
  }

  // ---- Planning again ----------------------------------------------------------------------

  /** The databases once each shard has imported the wallets it was planned to serve. */
  ghost predicate Imported(databases: seq<seq<Account>>, members: seq<Member>, homes: seq<nat>,
                           databases': seq<seq<Account>>)
    requires |homes| == |members|
  {
    forall i, name :: 0 <= i < |databases'| ==>
      (Named(databases'[i], name) <==>
        || (i < |databases| && Named(databases[i], name))
        || exists k :: 0 <= k < |members| && homes[k] == i && members[k].name == name)
  }

  /** Every home lies in the run of directories that is there once the layout's are made. */
  lemma HomesKnown(members: seq<Member>, placed: map<string, nat>, existing: seq<ShardState>, config: Config,
                   disk: Disk, layout: Layout, known: nat, k: nat)
    requires PrefixEnd(disk, |existing|) && k < |members|
    requires IsLayout(layout, members, Homes(members, placed, |existing|, existing, config))
    requires PrefixEnd(AllCreated(disk, layout), known)
    ensures |existing| <= known && Homes(members, placed, |existing|, existing, config)[k] < known
  {
    hide IsDir, Homes, IsLayout, AllCreated;
    var homes := Homes(members, placed, |existing|, existing, config);
    StartupFound(layout, members, placed, existing, config, disk);
    var i := LayoutAt(layout, members, homes, k);
    PrefixStops(AllCreated(disk, layout), known, homes[k]);
    if known < |existing| {
      AllCreatedIsDir(disk, layout, known);
    }
  }

  /** What the next startup reads back for a wallet is the home it was planned. */
  lemma HomeRecorded(members: seq<Member>, databases: seq<seq<Account>>, placed: map<string, nat>,
                     existing: seq<ShardState>, config: Config, databases': seq<seq<Account>>,
                     placed': map<string, nat>, k: nat)
    requires DistinctNames(members) && k < |members|
    requires Records(databases, placed) && |existing| == |databases| <= |databases'|
    requires Imported(databases, members, Homes(members, placed, |existing|, existing, config), databases')
    requires Homes(members, placed, |existing|, existing, config)[k] < |databases'|
    requires Records(databases', placed')
    ensures members[k].name in placed'
    ensures placed'[members[k].name] == Homes(members, placed, |existing|, existing, config)[k]
  {
    hide Homes, Named;
    var homes := Homes(members, placed, |existing|, existing, config);
    var name := members[k].name;
    assert Named(databases'[homes[k]], name);
    var last := placed'[name];
    assert Named(databases'[last], name);
    if last < |databases| && Named(databases[last], name) {
      assert Kept(members[k], placed, |existing|);
      RecordedStays(members, placed, |existing|, existing, config, k);
    } else {
      var l :| 0 <= l < |members| && homes[l] == last && members[l].name == name;
      assert l == k;
    }
  }

  lemma {:induction false} AscendingUnique(a: seq<nat>, b: seq<nat>)
    requires forall i, j :: 0 <= i < j < |a| ==> a[i] < a[j]
    requires forall i, j :: 0 <= i < j < |b| ==> b[i] < b[j]
    requires forall x: nat :: x in a <==> x in b
    ensures a == b
    decreases |a|
  {
    if a != [] || b != [] {
      var x := if a != [] then a[0] else b[0];
      assert x in a && x in b;
      var m, n := |a| - 1, |b| - 1;
      assert a[m] in b && b[n] in a;
      assert a[m] == b[n];
      forall x: nat ensures x in a[..m] <==> x in b[..n] {
        assert x in a[..m] <==> x in a && x != a[m];
        assert x in b[..n] <==> x in b && x != b[n];
      }
      AscendingUnique(a[..m], b[..n]);
      assert a == a[..m] + [a[m]] && b == b[..n] + [b[n]];
    }
  }

  ghost function IndicesOf(layout: Layout): seq<nat> {
    seq(|layout|, i requires 0 <= i < |layout| => layout[i].0)
  }

  lemma LayoutIndices(layout: Layout, members: seq<Member>, homes: seq<nat>)
    requires |members| == |homes| && IsLayout(layout, members, homes)
    ensures forall x: nat :: x in IndicesOf(layout) <==> x in homes
  {
    hide At;
    forall x: nat ensures x in IndicesOf(layout) <==> x in homes {
      if x in IndicesOf(layout) {
        var i :| 0 <= i < |layout| && layout[i].0 == x;
        var m := layout[i].1[0];
        assert m in multiset(layout[i].1);
        AtMember(members, homes, x, m);
      }
      if x in homes {
        var k :| 0 <= k < |homes| && homes[k] == x;
        assert Lists(layout, homes[k]);
        var i :| 0 <= i < |layout| && layout[i].0 == x;
        assert IndicesOf(layout)[i] == x;
      }
    }
  }

  /** The same shards in the same order, each with the same members. */
  ghost predicate SameMembership(layout: Layout, layout': Layout) {
    && |layout| == |layout'|
    && forall i :: 0 <= i < |layout| ==>
         layout[i].0 == layout'[i].0 && multiset(layout[i].1) == multiset(layout'[i].1)
  }

  lemma LayoutsAgree(layout: Layout, layout': Layout, members: seq<Member>, homes: seq<nat>)
    requires |members| == |homes| && IsLayout(layout, members, homes) && IsLayout(layout', members, homes)
    ensures SameMembership(layout, layout')
  {
    hide At;
    LayoutIndices(layout, members, homes);
    LayoutIndices(layout', members, homes);
    AscendingUnique(IndicesOf(layout), IndicesOf(layout'));
    forall i | 0 <= i < |layout| ensures layout[i].0 == layout'[i].0 {
      assert IndicesOf(layout)[i] == IndicesOf(layout')[i];
    }
  }

  /**
   Startup, imports, startup: the second plan, made from what the second startup reads back, lists
   the same shards with the same members as the first, however full the shards have become.
   */
  lemma ReplanSame(members: seq<Member>, config: Config, disk: Disk,
                   databases: seq<seq<Account>>, placed: map<string, nat>, existing: seq<ShardState>, layout: Layout,
                   databases': seq<seq<Account>>, placed': map<string, nat>, existing': seq<ShardState>,
                   layout': Layout)
    requires DistinctNames(members)
    requires PrefixEnd(disk, |existing|) && |databases| == |existing| && Records(databases, placed)
    requires IsLayout(layout, members, Homes(members, placed, |existing|, existing, config))
    requires Imported(databases, members, Homes(members, placed, |existing|, existing, config), databases')
    requires PrefixEnd(AllCreated(disk, layout), |existing'|) && |databases'| == |existing'|
    requires Records(databases', placed')
    requires IsLayout(layout', members, Homes(members, placed', |existing'|, existing', config))
    ensures Homes(members, placed', |existing'|, existing', config)
            == Homes(members, placed, |existing|, existing, config)
    ensures SameMembership(layout, layout')
  {
    hide Homes, IsLayout, PrefixEnd, AllCreated, Records, Imported;
    var homes := Homes(members, placed, |existing|, existing, config);
    var homes' := Homes(members, placed', |existing'|, existing', config);
    forall k | 0 <= k < |members| ensures homes'[k] == homes[k] {
      HomesKnown(members, placed, existing, config, disk, layout, |existing'|, k);
      HomeRecorded(members, databases, placed, existing, config, databases', placed', k);
      RecordedStays(members, placed', |existing'|, existing', config, k);
    }
    assert homes' == homes;
    LayoutsAgree(layout, layout', members, homes);
  }
}
