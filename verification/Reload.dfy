/** Configuration reload: the live limits, the report, and the keys that only a restart applies. */
module Reload {
  import opened Ordering
  import opened Decimals

  /** The two reloadable values, and the rendered config as its `key = value` lines. */
  datatype AppConfig = AppConfig(orchardActionLimit: nat, maxTxBytes: nat, rendered: seq<(string, string)>)

  const ORCHARD_KEY := "spend.orchard_action_limit"
  const MAX_TX_KEY := "spend.max_tx_bytes"

  predicate Reloadable(key: string) {
    key == ORCHARD_KEY || key == MAX_TX_KEY
  }

  datatype Report = Report(applied: seq<(string, string, string)>, requiresRestart: seq<string>)

  /** Collecting pairs into a map: the last value of a key wins. */
  function ToMap(pairs: seq<(string, string)>): map<string, string>
    decreases |pairs|
  {
    if pairs == [] then map[]
    else
      var n := |pairs| - 1;
      ToMap(pairs[..n])[pairs[n].0 := pairs[n].1]
  }

  lemma {:induction false} ToMapKeys(pairs: seq<(string, string)>, key: string)
    ensures key in ToMap(pairs) <==> exists i :: 0 <= i < |pairs| && pairs[i].0 == key
    ensures key in ToMap(pairs) ==> (key, ToMap(pairs)[key]) in pairs
    decreases |pairs|
  {
    if pairs != [] {
      var n := |pairs| - 1;
      ToMapKeys(pairs[..n], key);
      assert pairs == pairs[..n] + [pairs[n]];
      if key in ToMap(pairs[..n]) {
        var i :| 0 <= i < n && pairs[..n][i].0 == key;
        assert pairs[i].0 == key;
      }
      if i :| 0 <= i < |pairs| && pairs[i].0 == key {
        assert i < n ==> pairs[..n][i].0 == key;
      }
    }
  }

  /** A key's value is that of its last line. */
  lemma {:induction false} ToMapLast(pairs: seq<(string, string)>, i: nat)
    requires i < |pairs| && forall j :: i < j < |pairs| ==> pairs[j].0 != pairs[i].0
    ensures pairs[i].0 in ToMap(pairs) && ToMap(pairs)[pairs[i].0] == pairs[i].1
    decreases |pairs|
  {
    var n := |pairs| - 1;
    if i < n {
      ToMapLast(pairs[..n], i);
    }
  }

  /** Some line of `a` disagrees with `b`, or only one of the two has the key. */
  ghost predicate Changed(a: seq<(string, string)>, b: seq<(string, string)>, key: string) {
    || (key in ToMap(b) && exists v :: (key, v) in a && v != ToMap(b)[key])
    || (key in ToMap(a)) != (key in ToMap(b))
  }

  ghost predicate OneLinePerKey(pairs: seq<(string, string)>) {
    forall i, j :: 0 <= i < j < |pairs| ==> pairs[i].0 != pairs[j].0
  }

  /** When no key is rendered twice, that is exactly a difference in presence or value. */
  lemma ChangedMeansDiffers(a: seq<(string, string)>, b: seq<(string, string)>, key: string)
    requires OneLinePerKey(a)
    ensures Changed(a, b, key) <==>
            (key in ToMap(a)) != (key in ToMap(b)) || (key in ToMap(a) && ToMap(a)[key] != ToMap(b)[key])
  {
    hide ToMap;
    ToMapKeys(a, key);
    if key in ToMap(a) {
      var v := ToMap(a)[key];
      forall w | (key, w) in a ensures w == v {
        var i :| 0 <= i < |a| && a[i] == (key, w);
        var j :| 0 <= j < |a| && a[j] == (key, v);
      }
    }
  }

  /** The three passes of `changed_keys`, then `sort` and `dedup`. */
  method ChangedKeys(a: seq<(string, string)>, b: seq<(string, string)>) returns (changed: seq<string>)
    ensures Ascending(changed)
    ensures forall key :: key in changed <==> Changed(a, b, key)
  {
    hide ToMap, Less;
    var am, bm := ToMap(a), ToMap(b);
    changed := [];
    for i := 0 to |a|
      invariant forall key :: key in changed <==>
        key in bm && exists j :: 0 <= j < i && a[j].0 == key && a[j].1 != bm[key]
    {
      if a[i].0 in bm && bm[a[i].0] != a[i].1 {
        changed := changed + [a[i].0];
      }
    }
    ghost var differing := changed;
    for i := 0 to |b|
      invariant forall key :: key in changed <==>
        key in differing || (key !in am && exists j :: 0 <= j < i && b[j].0 == key)
    {
      if b[i].0 !in am {
        changed := changed + [b[i].0];
      }
    }
    ghost var gained := changed;
    for i := 0 to |a|
      invariant forall key :: key in changed <==>
        key in gained || (key !in bm && exists j :: 0 <= j < i && a[j].0 == key)
    {
      if a[i].0 !in bm {
        changed := changed + [a[i].0];
      }
    }
    forall key ensures key in changed <==> Changed(a, b, key) {
      ToMapKeys(a, key);
      ToMapKeys(b, key);
      PairIndex(a, key);
    }
    changed := SortDedup(changed);
  }

  lemma PairIndex(a: seq<(string, string)>, key: string)
    ensures forall w :: (key, w) in a <==> exists j :: 0 <= j < |a| && a[j].0 == key && a[j].1 == w
  {
    forall w ensures (key, w) in a <==> exists j :: 0 <= j < |a| && a[j].0 == key && a[j].1 == w {
      if j :| 0 <= j < |a| && a[j].0 == key && a[j].1 == w {
        assert a[j] == (key, w);
      }
    }
  }

  function SortDedup(keys: seq<string>): (r: seq<string>)
    ensures Ascending(r) && forall key :: key in r <==> key in keys
  {
    var sorted := Sort(keys, (key: string) => key);
    SortDedupSpec(keys);
    Dedup(sorted)
  }

  lemma SortDedupSpec(keys: seq<string>)
    ensures var r := Dedup(Sort(keys, (key: string) => key));
            Ascending(r) && forall key :: key in r <==> key in keys
  {
    hide Sort, Dedup, Less;
    SortSpec(keys, (key: string) => key);
    SameElements(keys, (key: string) => key);
    DedupSorted(Sort(keys, (key: string) => key));
  }

  class SpendLimits {
    var orchardActionLimit: nat
    var maxTxBytes: nat

    constructor (config: AppConfig)
      ensures orchardActionLimit == config.orchardActionLimit && maxTxBytes == config.maxTxBytes
    {
      orchardActionLimit, maxTxBytes := config.orchardActionLimit, config.maxTxBytes;
    }

    method SetOrchardActionLimit(limit: nat) returns (previous: nat)
      modifies this`orchardActionLimit
      ensures orchardActionLimit == limit && previous == old(orchardActionLimit)
    {
      previous := orchardActionLimit;
      orchardActionLimit := limit;
    }

    method SetMaxTxBytes(bytes: nat) returns (previous: nat)
      modifies this`maxTxBytes
      ensures maxTxBytes == bytes && previous == old(maxTxBytes)
    {
      previous := maxTxBytes;
      maxTxBytes := bytes;
    }
  }

  /** One `applied` entry when a limit moves, none when it does not. */
  function Moved(key: string, before: nat, after: nat): seq<(string, string, string)> {
    if before == after then [] else [(key, NatText(before), NatText(after))]
  }

  ghost predicate RestartKeys(running: AppConfig, incoming: AppConfig, keys: seq<string>) {
    && Ascending(keys)
    && forall key :: key in keys <==> Changed(running.rendered, incoming.rendered, key) && !Reloadable(key)
  }

  method ApplyReload(running: AppConfig, incoming: AppConfig, limits: SpendLimits) returns (report: Report)
    modifies limits
    ensures limits.orchardActionLimit == incoming.orchardActionLimit && limits.maxTxBytes == incoming.maxTxBytes
    ensures report.applied == Moved(ORCHARD_KEY, old(limits.orchardActionLimit), incoming.orchardActionLimit)
                              + Moved(MAX_TX_KEY, old(limits.maxTxBytes), incoming.maxTxBytes)
    ensures forall key, before, after :: (key, before, after) in report.applied <==>
              || (key == "spend.orchard_action_limit" && old(limits.orchardActionLimit) != incoming.orchardActionLimit
                  && before == NatText(old(limits.orchardActionLimit)) && after == NatText(incoming.orchardActionLimit))
              || (key == "spend.max_tx_bytes" && old(limits.maxTxBytes) != incoming.maxTxBytes
                  && before == NatText(old(limits.maxTxBytes)) && after == NatText(incoming.maxTxBytes))
    ensures RestartKeys(running, incoming, report.requiresRestart)
    ensures forall key :: key in report.requiresRestart <==>
              && Changed(running.rendered, incoming.rendered, key)
              && key != "spend.orchard_action_limit" && key != "spend.max_tx_bytes"
  {
    hide NatText, Changed, Less;
    var applied: seq<(string, string, string)> := [];
    var current := limits.orchardActionLimit;
    if incoming.orchardActionLimit != current {
      var _ := limits.SetOrchardActionLimit(incoming.orchardActionLimit);
      applied := applied + [(ORCHARD_KEY, NatText(current), NatText(incoming.orchardActionLimit))];
    }
    current := limits.maxTxBytes;
    if incoming.maxTxBytes != current {
      var _ := limits.SetMaxTxBytes(incoming.maxTxBytes);
      applied := applied + [(MAX_TX_KEY, NatText(current), NatText(incoming.maxTxBytes))];
    }
    var changed := ChangedKeys(running.rendered, incoming.rendered);
    var restart: seq<string> := [];
    for i := 0 to |changed|
      invariant forall key :: key in restart <==> !Reloadable(key) && exists j :: 0 <= j < i && changed[j] == key
      invariant Ascending(restart)
      invariant forall k :: 0 <= k < |restart| ==> exists j :: 0 <= j < i && changed[j] == restart[k]
    {
      if !Reloadable(changed[i]) {
        restart := restart + [changed[i]];
      }
    }
    report := Report(applied, restart);
  }

  /** The limits in force before reload `i` of a run: those on entry, or those of the config before. */
  ghost function LimitsBefore(entry: (nat, nat), configs: seq<AppConfig>, i: nat): (nat, nat)
    requires i <= |configs|
  {
    if i == 0 then entry else (configs[i - 1].orchardActionLimit, configs[i - 1].maxTxBytes)
  }

  /** The limits that `config` moved, with old and new value. */
  ghost function MovedFrom(before: (nat, nat), config: AppConfig): seq<(string, string, string)> {
    Moved(ORCHARD_KEY, before.0, config.orchardActionLimit) + Moved(MAX_TX_KEY, before.1, config.maxTxBytes)
  }

  /**
   A run of reloads, of any length: the live limits end as the last config read set them, and each
   report lists what that reload moved, however long ago the process was started.
   */
  method ReloadEach(running: AppConfig, configs: seq<AppConfig>, limits: SpendLimits) returns (reports: seq<Report>)
    modifies limits
    ensures |reports| == |configs|
    ensures var entry := old((limits.orchardActionLimit, limits.maxTxBytes));
            && (limits.orchardActionLimit, limits.maxTxBytes) == LimitsBefore(entry, configs, |configs|)
            && forall i :: 0 <= i < |configs| ==>
                 reports[i].applied == MovedFrom(LimitsBefore(entry, configs, i), configs[i])
    ensures forall i :: 0 <= i < |configs| ==> RestartKeys(running, configs[i], reports[i].requiresRestart)
  {
    hide Moved, RestartKeys;
    ghost var entry := (limits.orchardActionLimit, limits.maxTxBytes);
    reports := [];
    for n := 0 to |configs|
      invariant |reports| == n
      invariant (limits.orchardActionLimit, limits.maxTxBytes) == LimitsBefore(entry, configs, n)
      invariant forall i :: 0 <= i < n ==> reports[i].applied == MovedFrom(LimitsBefore(entry, configs, i), configs[i])
      invariant forall i :: 0 <= i < n ==> RestartKeys(running, configs[i], reports[i].requiresRestart)
    {
      var report := ApplyReload(running, configs[n], limits);
      reports := reports + [report];
    }
  }

  /** Reading the same limits again applies nothing. */
  lemma RepeatAppliesNothing(before: (nat, nat), config: AppConfig)
    ensures MovedFrom(before, config) == [] <==> before == (config.orchardActionLimit, config.maxTxBytes)
  {
  }
}
