/**
 `plan`: which shard each manifested wallet is served from at startup, and the shard table and
 directories the startup path makes of it.
 */
module FleetPlan {
  import opened Wrappers
  import opened Placement
  import opened ShardDirs
  import opened FleetTable

  type Layout = seq<(nat, seq<Member>)>

  /** The wallet's account is recorded in one of the `known` shards. */
  predicate Kept(m: Member, placed: map<string, nat>, known: nat) {
    m.name in placed && placed[m.name] < known
  }

  /** The shard of each member: where it is recorded, or where placement puts it. */
  ghost function Homes(members: seq<Member>, placed: map<string, nat>, known: nat, shards: seq<ShardState>,
                       config: Config): (homes: seq<nat>)
    ensures |homes| == |members|
    decreases |members|
  {
    if members == [] then []
    else if Kept(members[0], placed, known) then
      [placed[members[0].name]] + Homes(members[1..], placed, known, shards, config)
    else
      var index := Target(shards, members[0].birthday, config);
      [index] + Homes(members[1..], placed, known, Joined(shards, index, members[0].birthday), config)
  }

  /** The members whose home is `index`. */
  ghost function At(members: seq<Member>, homes: seq<nat>, index: nat): multiset<Member>
    requires |members| == |homes|
    decreases |members|
  {
    if members == [] then multiset{}
    else (if homes[0] == index then multiset{members[0]} else multiset{}) + At(members[1..], homes[1..], index)
  }

  /** The layout lists, in index order, exactly the shards that serve somebody, with whom. */
  ghost predicate IsLayout(layout: Layout, members: seq<Member>, homes: seq<nat>)
    requires |members| == |homes|
  {
    && (forall i, j :: 0 <= i < j < |layout| ==> layout[i].0 < layout[j].0)
    && (forall i :: 0 <= i < |layout| ==>
          layout[i].1 != [] && multiset(layout[i].1) == At(members, homes, layout[i].0))
    && (forall k :: 0 <= k < |homes| ==> Lists(layout, homes[k]))
  }

  ghost predicate Lists(layout: Layout, index: nat) {
    exists i :: 0 <= i < |layout| && layout[i].0 == index
  }

  // ---- The two passes ----------------------------------------------------------------------

  ghost function KeptAt(members: seq<Member>, placed: map<string, nat>, known: nat, index: nat): multiset<Member>
    decreases |members|
  {
    if members == [] then multiset{}
    else
      (if Kept(members[0], placed, known) && placed[members[0].name] == index then multiset{members[0]} else multiset{})
      + KeptAt(members[1..], placed, known, index)
  }

  ghost function Unplaced(members: seq<Member>, placed: map<string, nat>, known: nat): seq<Member>
    decreases |members|
  {
    if members == [] then []
    else (if Kept(members[0], placed, known) then [] else [members[0]]) + Unplaced(members[1..], placed, known)
  }

  /** Setting the recorded wallets aside first changes nobody's home. */
  lemma {:induction false} PassesAgree(members: seq<Member>, placed: map<string, nat>, known: nat,
                                       shards: seq<ShardState>, config: Config, index: nat)
    ensures var unplaced := Unplaced(members, placed, known);
            At(members, Homes(members, placed, known, shards, config), index)
            == KeptAt(members, placed, known, index) + At(unplaced, Placements(shards, unplaced, config), index)
    decreases |members|
  {
    hide Target, Joined, Placements;
    if members == [] {
      PlacementsHead(shards, [], config);
    } else {
      var m, rest := members[0], members[1..];
      var unplaced := Unplaced(members, placed, known);
      if Kept(m, placed, known) {
        PassesAgree(rest, placed, known, shards, config, index);
        assert unplaced == Unplaced(rest, placed, known);
      } else {
        var next := Joined(shards, Target(shards, m.birthday, config), m.birthday);
        PassesAgree(rest, placed, known, next, config, index);
        assert unplaced[0] == m && unplaced[1..] == Unplaced(rest, placed, known);
        PlacementsHead(shards, unplaced, config);
      }
    }
  }

  lemma PlacementsHead(shards: seq<ShardState>, members: seq<Member>, config: Config)
    ensures members != [] ==>
              var target := Target(shards, members[0].birthday, config);
              && Placements(shards, members, config)[0] == target
              && Placements(shards, members, config)[1..]
                 == Placements(Joined(shards, target, members[0].birthday), members[1..], config)
    ensures members == [] ==> Placements(shards, members, config) == []
  {
  }

  function ShardAt(shards: seq<seq<Member>>, index: nat): seq<Member> {
    if index < |shards| then shards[index] else []
  }

  method Plan(members: seq<Member>, placed: map<string, nat>, existing: seq<ShardState>, config: Config)
    returns (layout: Layout)
    ensures IsLayout(layout, members, Homes(members, placed, |existing|, existing, config))
  {
    hide IsLayout, Homes, Placements;
    var shards, unplaced := KeepRecorded(members, placed, |existing|);
    var out := PlaceMembers(existing, unplaced, config);
    shards := AddPlaced(shards, unplaced, out);
    ghost var homes := Homes(members, placed, |existing|, existing, config);
    forall index: nat ensures multiset(ShardAt(shards, index)) == At(members, homes, index) {
      PassesAgree(members, placed, |existing|, existing, config, index);
    }
    layout := DropEmpty(shards, members, homes);
  }

  /** First loop: recorded wallets go to their shard, the others are collected. */
  method KeepRecorded(members: seq<Member>, placed: map<string, nat>, known: nat)
    returns (shards: seq<seq<Member>>, unplaced: seq<Member>)
    ensures unplaced == Unplaced(members, placed, known)
    ensures forall index: nat :: multiset(ShardAt(shards, index)) == KeptAt(members, placed, known, index)
  {
    hide KeptAt, Unplaced;
    shards := seq(known, _ => []);
    unplaced := [];
    assert members[0..] == members;
    for n := 0 to |members|
      invariant |shards| == known
      invariant unplaced + Unplaced(members[n..], placed, known) == Unplaced(members, placed, known)
      invariant forall index: nat ::
        multiset(ShardAt(shards, index)) + KeptAt(members[n..], placed, known, index)
        == KeptAt(members, placed, known, index)
    {
      var m := members[n];
      KeptStep(members, placed, known, n);
      if Kept(m, placed, known) {
        var i := placed[m.name];
        shards := shards[i := shards[i] + [m]];
      } else {
        unplaced := unplaced + [m];
      }
    }
    KeptDone(members, placed, known);
  }

  lemma KeptStep(members: seq<Member>, placed: map<string, nat>, known: nat, n: nat)
    requires n < |members|
    ensures Unplaced(members[n..], placed, known)
            == (if Kept(members[n], placed, known) then [] else [members[n]])
               + Unplaced(members[n + 1..], placed, known)
    ensures forall index: nat :: KeptAt(members[n..], placed, known, index)
              == (if Kept(members[n], placed, known) && placed[members[n].name] == index
                  then multiset{members[n]} else multiset{}) + KeptAt(members[n + 1..], placed, known, index)
  {
    assert members[n..][0] == members[n] && members[n..][1..] == members[n + 1..];
  }

  lemma KeptDone(members: seq<Member>, placed: map<string, nat>, known: nat)
    ensures Unplaced(members[|members|..], placed, known) == []
    ensures forall index: nat :: KeptAt(members[|members|..], placed, known, index) == multiset{}
  {
  }

  /** Second loop: the others go where placement said, opening shards as needed. */
  method AddPlaced(shards: seq<seq<Member>>, unplaced: seq<Member>, out: seq<nat>) returns (grown: seq<seq<Member>>)
    requires |out| == |unplaced|
    ensures forall index: nat ::
      multiset(ShardAt(grown, index)) == multiset(ShardAt(shards, index)) + At(unplaced, out, index)
  {
    hide At;
    grown := shards;
    assert unplaced[0..] == unplaced && out[0..] == out;
    for n := 0 to |unplaced|
      invariant forall index: nat ::
        multiset(ShardAt(grown, index)) + At(unplaced[n..], out[n..], index)
        == multiset(ShardAt(shards, index)) + At(unplaced, out, index)
    {
      AtStep(unplaced, out, n);
      ghost var before := grown;
      while |grown| <= out[n]
        invariant forall index: nat :: ShardAt(grown, index) == ShardAt(before, index)
      {
        grown := grown + [[]];
      }
      grown := grown[out[n] := grown[out[n]] + [unplaced[n]]];
      forall index: nat
        ensures multiset(ShardAt(grown, index))
             == multiset(ShardAt(before, index)) + (if out[n] == index then multiset{unplaced[n]} else multiset{})
      {
      }
    }
    AtDone(unplaced, out);
  }

  lemma AtStep(members: seq<Member>, homes: seq<nat>, n: nat)
    requires |members| == |homes| && n < |members|
    ensures forall index: nat :: At(members[n..], homes[n..], index)
              == (if homes[n] == index then multiset{members[n]} else multiset{})
                 + At(members[n + 1..], homes[n + 1..], index)
  {
    assert members[n..][0] == members[n] && members[n..][1..] == members[n + 1..];
    assert homes[n..][0] == homes[n] && homes[n..][1..] == homes[n + 1..];
  }

  lemma AtDone(members: seq<Member>, homes: seq<nat>)
    requires |members| == |homes|
    ensures forall index: nat :: At(members[|members|..], homes[|homes|..], index) == multiset{}
  {
  }

  /** The final pass: pair each shard with its index and drop the ones that serve nobody. */
  method DropEmpty(shards: seq<seq<Member>>, ghost members: seq<Member>, ghost homes: seq<nat>)
    returns (layout: Layout)
    requires |members| == |homes|
    requires forall index: nat :: multiset(ShardAt(shards, index)) == At(members, homes, index)
    ensures IsLayout(layout, members, homes)
  {
    hide At, Lists;
    layout := [];
    for n := 0 to |shards|
      invariant forall i :: 0 <= i < |layout| ==> layout[i].0 < n
      invariant forall i, j :: 0 <= i < j < |layout| ==> layout[i].0 < layout[j].0
      invariant forall i :: 0 <= i < |layout| ==>
        layout[i].1 != [] && multiset(layout[i].1) == At(members, homes, layout[i].0)
      invariant forall index: nat :: index < n && shards[index] != [] ==> Lists(layout, index)
    {
      if shards[n] != [] {
        ghost var before := layout;
        layout := layout + [(n, shards[n])];
        assert multiset(ShardAt(shards, n)) == At(members, homes, n);
        ListsGrows(before, (n, shards[n]));
      }
    }
    forall k | 0 <= k < |homes| ensures Lists(layout, homes[k]) {
      AtContains(members, homes, k);
      assert members[k] in multiset(ShardAt(shards, homes[k]));
    }
  }

  lemma ListsGrows(layout: Layout, entry: (nat, seq<Member>))
    ensures Lists(layout + [entry], entry.0)
    ensures forall index: nat :: Lists(layout, index) ==> Lists(layout + [entry], index)
  {
    var after := layout + [entry];
    assert after[|layout|] == entry;
    forall index: nat | Lists(layout, index) ensures Lists(after, index) {
      var i :| 0 <= i < |layout| && layout[i].0 == index;
      assert after[i].0 == index;
    }
  }

  lemma {:induction false} AtContains(members: seq<Member>, homes: seq<nat>, k: nat)
    requires |members| == |homes| && k < |members|
    ensures members[k] in At(members, homes, homes[k])
    decreases |members|
  {
    if k > 0 {
      AtContains(members[1..], homes[1..], k - 1);
    }
  }

  // ---- Properties of a plan ----------------------------------------------------------------

  ghost predicate DistinctNames(members: seq<Member>) {
    forall i, j :: 0 <= i < j < |members| ==> members[i].name != members[j].name
  }

  lemma {:induction false} AtMember(members: seq<Member>, homes: seq<nat>, index: nat, m: Member)
    requires |members| == |homes|
    ensures m in At(members, homes, index) <==> exists k :: 0 <= k < |members| && members[k] == m && homes[k] == index
    ensures At(members, homes, index)[m] <= multiset(members)[m]
    decreases |members|
  {
    if members != [] {
      AtMember(members[1..], homes[1..], index, m);
      assert members == [members[0]] + members[1..];
      if m in At(members[1..], homes[1..], index) {
        var k :| 0 <= k < |members[1..]| && members[1..][k] == m && homes[1..][k] == index;
        assert members[k + 1] == m && homes[k + 1] == index;
      }
      if k :| 0 <= k < |members| && members[k] == m && homes[k] == index {
        assert k > 0 ==> members[1..][k - 1] == m && homes[1..][k - 1] == index;
      }
    }
  }

  /** Every member is listed in one shard, and with distinct names in no other. */
  lemma ServedOnce(layout: Layout, members: seq<Member>, homes: seq<nat>, k: nat, i: nat)
    requires |members| == |homes| && IsLayout(layout, members, homes) && DistinctNames(members)
    requires k < |members| && i < |layout|
    ensures members[k] in layout[i].1 <==> layout[i].0 == homes[k]
  {
    hide At;
    AtMember(members, homes, layout[i].0, members[k]);
    AtMember(members, homes, homes[k], members[k]);
    assert members[k] in layout[i].1 <==> members[k] in multiset(layout[i].1);
  }

  /** A recorded wallet stays where it is recorded. */
  lemma {:induction false} RecordedStays(members: seq<Member>, placed: map<string, nat>, known: nat,
                                         shards: seq<ShardState>, config: Config, k: nat)
    requires k < |members| && Kept(members[k], placed, known)
    ensures Homes(members, placed, known, shards, config)[k] == placed[members[k].name]
    decreases |members|
  {
    if k > 0 {
      if Kept(members[0], placed, known) {
        RecordedStays(members[1..], placed, known, shards, config, k - 1);
      } else {
        var index := Target(shards, members[0].birthday, config);
        RecordedStays(members[1..], placed, known, Joined(shards, index, members[0].birthday), config, k - 1);
      }
    }
  }

  /** No index is skipped: between the known shards and any home, every shard has a member. */
  lemma {:induction false} HomesGapFree(members: seq<Member>, placed: map<string, nat>, known: nat,
                                        shards: seq<ShardState>, config: Config, k: nat, index: nat)
    requires known <= |shards| && k < |members|
    requires var homes := Homes(members, placed, known, shards, config); |shards| <= index <= homes[k]
    ensures index in Homes(members, placed, known, shards, config)
    decreases |members|
  {
    var homes := Homes(members, placed, known, shards, config);
    if Kept(members[0], placed, known) {
      HomesGapFree(members[1..], placed, known, shards, config, k - 1, index);
      assert index in homes[1..];
    } else {
      var target := Target(shards, members[0].birthday, config);
      var next := Joined(shards, target, members[0].birthday);
      if target == index {
        assert homes[0] == index;
      } else {
        assert homes[1..] == Homes(members[1..], placed, known, next, config);
        HomesGapFree(members[1..], placed, known, next, config, k - 1, index);
        assert index in homes[1..];
      }
    }
  }

  // ---- Startup -----------------------------------------------------------------------------

  function NamesOf(members: seq<Member>): set<string> {
    set i | 0 <= i < |members| :: members[i].name
  }

  function MinBirthday(members: seq<Member>): Option<u32>
    decreases |members|
  {
    if members == [] then None else Some(Lowest(MinBirthday(members[1..]), members[0].birthday))
  }

  /** `register_shard` for each entry of the layout. */
  function Registered(layout: Layout): (table: Table)
    ensures |table| == |layout|
  {
    seq(|layout|, i requires 0 <= i < |layout| =>
      Shard(layout[i].0, NamesOf(layout[i].1), |layout[i].1|, MinBirthday(layout[i].1)))
  }

  /** `create_dir_all` for each entry of the layout. */
  ghost function AllCreated(disk: Disk, layout: Layout): Disk
    decreases |layout|
  {
    if layout == [] then disk
    else Created(AllCreated(disk, layout[..|layout| - 1]), layout[|layout| - 1].0)
  }

  lemma {:induction false} NamesSize(members: seq<Member>)
    requires DistinctNames(members)
    ensures |NamesOf(members)| == |members|
    decreases |members|
  {
    if members != [] {
      var n := |members| - 1;
      NamesSize(members[..n]);
      assert NamesOf(members) == NamesOf(members[..n]) + {members[n].name};
      assert members[n].name !in NamesOf(members[..n]);
    }
  }

  lemma {:induction false} DistinctOnce(members: seq<Member>, m: Member)
    requires DistinctNames(members)
    ensures multiset(members)[m] <= 1
    decreases |members|
  {
    if members != [] {
      var rest := members[1..];
      DistinctOnce(rest, m);
      assert members == [members[0]] + rest;
      if members[0] == m {
        assert m !in rest;
        assert m !in multiset(rest);
      }
    }
  }

  lemma {:induction false} TwiceCounts(members: seq<Member>, i: nat, j: nat)
    requires i < j < |members| && members[i] == members[j]
    ensures multiset(members)[members[i]] >= 2
  {
    var x := members[i];
    assert members == members[..j] + members[j..];
    assert x in multiset(members[..j]) by {
      assert members[..j][i] == x;
    }
    assert x in multiset(members[j..]) by {
      assert members[j..][0] == x;
    }
  }

  /** Two entries of a layout with a wallet name in common are the same place. */
  lemma SameNameSamePlace(layout: Layout, members: seq<Member>, homes: seq<nat>, i: nat, a: nat, j: nat, b: nat)
    requires |members| == |homes| && IsLayout(layout, members, homes) && DistinctNames(members)
    requires i < |layout| && a < |layout[i].1| && j < |layout| && b < |layout[j].1|
    requires layout[i].1[a].name == layout[j].1[b].name
    ensures i == j && a == b
  {
    hide At;
    var x, y := layout[i].1[a], layout[j].1[b];
    assert x in multiset(layout[i].1) && y in multiset(layout[j].1);
    AtMember(members, homes, layout[i].0, x);
    AtMember(members, homes, layout[j].0, y);
    var k :| 0 <= k < |members| && members[k] == x && homes[k] == layout[i].0;
    var l :| 0 <= l < |members| && members[l] == y && homes[l] == layout[j].0;
    assert k == l && i == j;
    DistinctOnce(members, x);
    if a < b {
      TwiceCounts(layout[i].1, a, b);
    } else if b < a {
      TwiceCounts(layout[i].1, b, a);
    }
  }

  /** The startup table is well formed. */
  lemma StartupTableOk(layout: Layout, members: seq<Member>, homes: seq<nat>)
    requires |members| == |homes| && IsLayout(layout, members, homes) && DistinctNames(members)
    ensures TableOk(Registered(layout))
  {
    hide IsLayout, At, MinBirthday;
    var table := Registered(layout);
    assert DistinctDirs(table) by {
      LayoutAscends(layout, members, homes);
    }
    forall i, j | 0 <= i < j < |table| ensures table[i].members !! table[j].members {
      forall name | name in table[i].members ensures name !in table[j].members {
        if name in table[j].members {
          var a :| 0 <= a < |layout[i].1| && layout[i].1[a].name == name;
          var b :| 0 <= b < |layout[j].1| && layout[j].1[b].name == name;
          SameNameSamePlace(layout, members, homes, i, a, j, b);
          assert false;
        }
      }
    }
    forall i | 0 <= i < |table| ensures table[i].accounts == |table[i].members| {
      forall a, b | 0 <= a < b < |layout[i].1| ensures layout[i].1[a].name != layout[i].1[b].name {
        if layout[i].1[a].name == layout[i].1[b].name {
          SameNameSamePlace(layout, members, homes, i, a, i, b);
          assert false;
        }
      }
      NamesSize(layout[i].1);
    }
  }

  lemma LayoutAscends(layout: Layout, members: seq<Member>, homes: seq<nat>)
    requires |members| == |homes| && IsLayout(layout, members, homes)
    ensures forall i, j :: 0 <= i < j < |layout| ==> layout[i].0 < layout[j].0
  {
  }

  lemma {:induction false} AllCreatedIsDir(disk: Disk, layout: Layout, j: nat)
    ensures IsDir(AllCreated(disk, layout), j) <==> IsDir(disk, j) || Lists(layout, j)
    ensures Exists(AllCreated(disk, layout), j) <==> Exists(disk, j) || Lists(layout, j)
    decreases |layout|
  {
    hide IsDir, Exists, Created;
    if layout != [] {
      var n := |layout| - 1;
      AllCreatedIsDir(disk, layout[..n], j);
      CreatedIsDir(AllCreated(disk, layout[..n]), layout[n].0, j);
      assert layout == layout[..n] + [layout[n]];
      ListsGrows(layout[..n], layout[n]);
    }
  }

  /** Every shard of a startup's layout lies in the run of directories the next startup scans. */
  lemma StartupFound(layout: Layout, members: seq<Member>, placed: map<string, nat>, existing: seq<ShardState>,
                     config: Config, disk: Disk)
    requires IsLayout(layout, members, Homes(members, placed, |existing|, existing, config))
    requires PrefixEnd(disk, |existing|)
    ensures forall i :: 0 <= i < |layout| ==> InPrefix(AllCreated(disk, layout), layout[i].0)
  {
    hide IsDir, Exists, Homes, At, MinBirthday;
    var homes := Homes(members, placed, |existing|, existing, config);
    forall i, j: nat | 0 <= i < |layout| && j <= layout[i].0 ensures IsDir(AllCreated(disk, layout), j) {
      AllCreatedIsDir(disk, layout, j);
      if j >= |existing| {
        var m := layout[i].1[0];
        assert m in multiset(layout[i].1);
        AtMember(members, homes, layout[i].0, m);
        var k :| 0 <= k < |members| && members[k] == m && homes[k] == layout[i].0;
        HomesGapFree(members, placed, |existing|, existing, config, k, j);
        var l :| 0 <= l < |homes| && homes[l] == j;
        assert Lists(layout, homes[l]);
      }
    }
  }

  /** The shard of a layout that lists index `homes[k]`. */
  lemma LayoutAt(layout: Layout, members: seq<Member>, homes: seq<nat>, k: nat) returns (i: nat)
    requires |members| == |homes| && IsLayout(layout, members, homes) && k < |members|
    ensures i < |layout| && layout[i].0 == homes[k] && members[k] in layout[i].1
  {
    hide At;
    assert Lists(layout, homes[k]);
    i :| 0 <= i < |layout| && layout[i].0 == homes[k];
    AtContains(members, homes, k);
    assert members[k] in multiset(layout[i].1);
  }

  /** A layout lists nobody but the members. */
  lemma LayoutMember(layout: Layout, members: seq<Member>, homes: seq<nat>, i: nat, a: nat)
    requires |members| == |homes| && IsLayout(layout, members, homes) && i < |layout| && a < |layout[i].1|
    ensures layout[i].1[a] in members
  {
    hide At;
    assert layout[i].1[a] in multiset(layout[i].1);
    AtMember(members, homes, layout[i].0, layout[i].1[a]);
  }

  /** The startup table holds exactly the wallets planned for. */
  lemma StartupHolds(layout: Layout, members: seq<Member>, homes: seq<nat>, name: string)
    requires |members| == |homes| && IsLayout(layout, members, homes)
    ensures Holds(Registered(layout), name) <==> name in NamesOf(members)
  {
    hide IsLayout, MinBirthday;
    var table := Registered(layout);
    if Holds(table, name) {
      var i :| 0 <= i < |table| && name in table[i].members;
      var a :| 0 <= a < |layout[i].1| && layout[i].1[a].name == name;
      LayoutMember(layout, members, homes, i, a);
    }
    if name in NamesOf(members) {
      var k :| 0 <= k < |members| && members[k].name == name;
      var i := LayoutAt(layout, members, homes, k);
      assert name in table[i].members;
    }
  }

  lemma {:induction false} MinBirthdayLeast(members: seq<Member>)
    requires members != []
    ensures MinBirthday(members).Some?
    ensures forall k :: 0 <= k < |members| ==> MinBirthday(members).value <= members[k].birthday
    ensures exists k :: 0 <= k < |members| && members[k].birthday == MinBirthday(members).value
    decreases |members|
  {
    var rest := members[1..];
    if rest != [] {
      MinBirthdayLeast(rest);
      forall k | 0 < k < |members| ensures MinBirthday(rest).value <= members[k].birthday {
        assert members[k] == rest[k - 1];
      }
      var k :| 0 <= k < |rest| && rest[k].birthday == MinBirthday(rest).value;
      assert members[k + 1].birthday == MinBirthday(rest).value;
    }
    assert members[0].birthday == members[0].birthday;
  }

  /** The wallets' birthdays by name. */
  ghost predicate BornAs(members: seq<Member>, births: map<string, u32>) {
    forall m :: m in members ==> m.name in births && births[m.name] == m.birthday
  }

  /** At startup each shard's floor is the least manifested birthday it serves. */
  lemma StartupFloors(layout: Layout, members: seq<Member>, homes: seq<nat>, births: map<string, u32>)
    requires |members| == |homes| && IsLayout(layout, members, homes) && BornAs(members, births)
    ensures Floors(Registered(layout), births)
  {
    hide MinBirthday, At;
    var table := Registered(layout);
    forall i | 0 <= i < |table| ensures IsFloor(table[i], births) {
      MinBirthdayLeast(layout[i].1);
      forall a | 0 <= a < |layout[i].1| ensures layout[i].1[a] in members {
        LayoutMember(layout, members, homes, i, a);
      }
      var k :| 0 <= k < |layout[i].1| && layout[i].1[k].birthday == MinBirthday(layout[i].1).value;
      assert layout[i].1[k].name in table[i].members;
    }
  }
}
