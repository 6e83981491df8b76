/** `place_members`: which shard an arrival joins, and what a batch of arrivals does to the shards. */
module Placement {
  import opened Wrappers

  type u32 = x: int | 0 <= x < 0x1_0000_0000

  datatype Member = Member(name: string, ufvk: string, birthday: u32)

  /** What one shard holds; `lowest` is `None` for an empty shard, which accepts any birthday. */
  datatype ShardState = ShardState(accounts: nat, lowest: Option<u32>)

  datatype Config = Config(shardSize: nat, cohortDepth: u32)

  /** `height + cohort_depth` is 32-bit and wraps around in a release build. */
  function WrappingAdd(a: u32, b: u32): u32 {
    (a + b) % 0x1_0000_0000
  }

  predicate Fits(s: ShardState, height: u32, config: Config) {
    && s.accounts < config.shardSize
    && (s.lowest.Some? ==> WrappingAdd(height, config.cohortDepth) >= s.lowest.value)
  }

  function Lowest(lowest: Option<u32>, height: u32): u32 {
    if lowest.None? || height < lowest.value then height else lowest.value
  }

  function Join(s: ShardState, height: u32): ShardState {
    ShardState(s.accounts + 1, Some(Lowest(s.lowest, height)))
  }

  /** The index an arrival gets: the newest shard it fits, or a new one past the end. */
  ghost predicate IsTarget(shards: seq<ShardState>, height: u32, config: Config, index: nat) {
    && index <= |shards|
    && (index < |shards| ==> Fits(shards[index], height, config))
    && (forall i :: index < i < |shards| ==> !Fits(shards[i], height, config))
    && (index == |shards| ==> forall i :: 0 <= i < |shards| ==> !Fits(shards[i], height, config))
  }

  function Target(shards: seq<ShardState>, height: u32, config: Config): (index: nat)
    ensures IsTarget(shards, height, config, index)
  {
    TargetBelow(shards, height, config, |shards|)
  }

  function TargetBelow(shards: seq<ShardState>, height: u32, config: Config, n: nat): (index: nat)
    requires n <= |shards|
    requires forall i :: n <= i < |shards| ==> !Fits(shards[i], height, config)
    ensures IsTarget(shards, height, config, index)
  {
    if n == 0 then |shards|
    else if Fits(shards[n - 1], height, config) then n - 1
    else TargetBelow(shards, height, config, n - 1)
  }

  const EMPTY_SHARD := ShardState(0, None)

  /** The shard states after one arrival joins shard `index`. */
  function Joined(shards: seq<ShardState>, index: nat, height: u32): (after: seq<ShardState>)
    requires index <= |shards|
  {
    if index < |shards| then shards[index := Join(shards[index], height)]
    else shards + [Join(EMPTY_SHARD, height)]
  }

  /** Indices for a batch, each placement seeing the ones before it. */
  function Placements(shards: seq<ShardState>, members: seq<Member>, config: Config): (out: seq<nat>)
    ensures |out| == |members|
    decreases |members|
  {
    if members == [] then []
    else
      var index := Target(shards, members[0].birthday, config);
      [index] + Placements(Joined(shards, index, members[0].birthday), members[1..], config)
  }

  function AfterPlacements(shards: seq<ShardState>, members: seq<Member>, config: Config): seq<ShardState>
    decreases |members|
  {
    if members == [] then shards
    else
      var index := Target(shards, members[0].birthday, config);
      AfterPlacements(Joined(shards, index, members[0].birthday), members[1..], config)
  }

  method PlaceMembers(existing: seq<ShardState>, members: seq<Member>, config: Config) returns (out: seq<nat>)
    ensures out == Placements(existing, members, config)
    ensures forall k :: 0 <= k < |members| && members[k].birthday + config.cohortDepth < 0x1_0000_0000 ==>
              FollowsRule(AfterPlacements(existing, members[..k], config), members[k].birthday, config, out[k])
  {
    hide Placements, Join, Fits, FollowsRule, AfterPlacements;
    var shards := existing;
    out := [];
    assert members[0..] == members;
    for n := 0 to |members|
      invariant |out| == n
      invariant out + Placements(shards, members[n..], config) == Placements(existing, members, config)
    {
      var height := members[n].birthday;
      var target := Target(shards, height, config);
      PlacementsStep(shards, members, n, config);
      ghost var before := shards;
      if target == |shards| {
        shards := shards + [EMPTY_SHARD];
      }
      shards := shards[target := Join(shards[target], height)];
      assert shards == Joined(before, target, height);
      out := out + [target];
    }
    PlacementsStep(shards, members, |members|, config);
    forall k | 0 <= k < |members| && members[k].birthday + config.cohortDepth < 0x1_0000_0000
      ensures FollowsRule(AfterPlacements(existing, members[..k], config), members[k].birthday, config, out[k])
    {
      PlacementsFollowRule(existing, members, config, k);
    }
  }

  lemma PlacementsStep(shards: seq<ShardState>, members: seq<Member>, n: nat, config: Config)
    requires n <= |members|
    ensures n == |members| ==> Placements(shards, members[n..], config) == []
    ensures n < |members| ==>
              var height := members[n].birthday;
              var target := Target(shards, height, config);
              Placements(shards, members[n..], config)
              == [target] + Placements(Joined(shards, target, height), members[n + 1..], config)
  {
    if n < |members| {
      assert members[n..][0] == members[n] && members[n..][1..] == members[n + 1..];
    }
  }

  // ---- What a batch guarantees -------------------------------------------------------------

  /** How many of the first members of a batch landed in shard `index`. */
  function Arrivals(out: seq<nat>, index: nat): nat {
    if out == [] then 0 else (if out[0] == index then 1 else 0) + Arrivals(out[1..], index)
  }

  function AccountsAt(shards: seq<ShardState>, index: nat): nat {
    if index < |shards| then shards[index].accounts else 0
  }

  /**
   Conservation and capacity: shards only grow, by exactly the members placed in them; a shard
   that received one ends within `shard_size`; and no index is skipped, so every new shard has a
   member.
   */
  lemma {:induction false} PlacementsAccount(shards: seq<ShardState>, members: seq<Member>, config: Config, index: nat)
    requires config.shardSize >= 1
    ensures var after, out := AfterPlacements(shards, members, config), Placements(shards, members, config);
            && |shards| <= |after|
            && AccountsAt(after, index) == AccountsAt(shards, index) + Arrivals(out, index)
            && (Arrivals(out, index) > 0 ==> index < |after| && AccountsAt(after, index) <= config.shardSize)
            && (|shards| <= index < |after| ==> Arrivals(out, index) > 0)
    decreases |members|
  {
    if members != [] {
      var height := members[0].birthday;
      var target := Target(shards, height, config);
      var next := Joined(shards, target, height);
      PlacementsAccount(next, members[1..], config, index);
      assert Placements(shards, members, config)[1..] == Placements(next, members[1..], config);
    }
  }

  // ---- The cohort rule and its width -------------------------------------------------------

  /**
   The documented rule: a shard is sealed once it holds `shard_size` accounts, and a birthday more
   than `cohort_depth` blocks below the oldest one in it may not join; an empty shard takes anyone.
   */
  predicate MayJoin(s: ShardState, height: u32, config: Config) {
    s.accounts < config.shardSize && (s.lowest.None? || s.lowest.value - height <= config.cohortDepth)
  }

  /** The newest shard the rule admits the arrival to, and a new one past the end only when none does. */
  ghost predicate FollowsRule(shards: seq<ShardState>, height: u32, config: Config, index: nat) {
    && (index < |shards| <==> exists i :: 0 <= i < |shards| && MayJoin(shards[i], height, config))
    && (index < |shards| ==> MayJoin(shards[index], height, config))
    && (forall i :: index < i < |shards| ==> !MayJoin(shards[i], height, config))
    && index <= |shards|
  }

  /** With a depth near 2^32 the sum wraps, and a birthday no older than the shard's is turned away. */
  lemma CohortWraps()
    ensures var s, config := ShardState(1, Some(2)), Config(128, 0xFFFF_FFFF);
            && MayJoin(s, 3, config) && Target([s], 3, config) == 0
            && MayJoin(s, 2, config) && Target([s], 2, config) == 1
  {
  }

  /** Ten thousand blocks below the oldest birthday is within a depth of ten thousand, one more is not. */
  lemma CohortVectors()
    ensures var s, config := ShardState(1, Some(1_000_000)), Config(128, 10_000);
            Target([s], 990_000, config) == 0 && Target([s], 989_999, config) == 1
            && Target([ShardState(128, Some(1_000_000))], 1_000_000, config) == 1
            && Target([s, s, ShardState(0, None)], 0, config) == 2 && Target([s, s], 1_000_000, config) == 1
  {
  }

  lemma FitsMeans(s: ShardState, height: u32, config: Config)
    requires height + config.cohortDepth < 0x1_0000_0000
    ensures Fits(s, height, config) <==> MayJoin(s, height, config)
  {
  }

  /** Placement follows the documented rule whenever the 32-bit sum does not wrap. */
  lemma TargetFollowsRule(shards: seq<ShardState>, height: u32, config: Config)
    requires height + config.cohortDepth < 0x1_0000_0000
    ensures FollowsRule(shards, height, config, Target(shards, height, config))
  {
    hide Fits, MayJoin, Target;
    forall i | 0 <= i < |shards| ensures Fits(shards[i], height, config) <==> MayJoin(shards[i], height, config) {
      FitsMeans(shards[i], height, config);
    }
  }

  /**
   Placement follows the documented rule on every table of shards exactly when the sum of birthday
   and depth fits in 32 bits (or every shard is sealed from the start).
   */
  lemma CohortExact(height: u32, config: Config)
    ensures (forall shards :: FollowsRule(shards, height, config, Target(shards, height, config))) <==>
            height + config.cohortDepth < 0x1_0000_0000 || config.shardSize == 0
  {
    hide Target, FollowsRule;
    if height + config.cohortDepth < 0x1_0000_0000 {
      forall shards ensures FollowsRule(shards, height, config, Target(shards, height, config)) {
        TargetFollowsRule(shards, height, config);
      }
    } else if config.shardSize == 0 {
      forall shards ensures FollowsRule(shards, height, config, Target(shards, height, config)) {
        AllSealed(shards, height, config);
      }
    } else {
      WrapTurnsAway(height, config);
    }
  }

  lemma AllSealed(shards: seq<ShardState>, height: u32, config: Config)
    requires config.shardSize == 0
    ensures FollowsRule(shards, height, config, Target(shards, height, config))
  {
  }

  /** A shard whose oldest birthday is the highest of all: the rule admits the arrival, the code does not. */
  lemma WrapTurnsAway(height: u32, config: Config)
    requires height + config.cohortDepth >= 0x1_0000_0000 && config.shardSize > 0
    ensures var shards := [ShardState(0, Some(0xFFFF_FFFF))];
            !FollowsRule(shards, height, config, Target(shards, height, config))
  {
    var shards := [ShardState(0, Some(0xFFFF_FFFF))];
    assert MayJoin(shards[0], height, config) && !Fits(shards[0], height, config);
  }

  /** In a batch, each member is placed by the rule among the shards as the ones before left them. */
  lemma {:induction false} PlacementsFollowRule(shards: seq<ShardState>, members: seq<Member>, config: Config, k: nat)
    requires k < |members| && members[k].birthday + config.cohortDepth < 0x1_0000_0000
    ensures FollowsRule(AfterPlacements(shards, members[..k], config), members[k].birthday, config,
                        Placements(shards, members, config)[k])
    decreases |members|
  {
    hide FollowsRule, Target, Joined;
    if k == 0 {
      TargetFollowsRule(shards, members[0].birthday, config);
      assert members[..0] == [];
    } else {
      var next := Joined(shards, Target(shards, members[0].birthday, config), members[0].birthday);
      PlacementsFollowRule(next, members[1..], config, k - 1);
      assert members[..k][1..] == members[1..][..k - 1];
    }
  }
}
