# zecd, verified

A Dafny model of the decision logic of zecd, a Zcash wallet daemon, and proofs of what its code and
comments promise. The model follows the source function by function: loops are methods with
invariants, objects whose fields change are classes, expressions are functions. Each main result is
stated against something defined independently of the code: a grammar, a rational value, a state
machine, a decoder.

- `Amount*.dfy`, `Decimals.dfy`: amounts on the wire. `AmountSyntax` gives the number grammar and the
  rational a literal denotes; `AmountParser` is the 64-bit parser, with `i64` a subset type so that
  every assignment is checked against overflow; `Amount` relates printing and parsing.
- `Bech32mChecksum.dfy`, `Bech32m.dfy`, `Bech32mVectors.dfy`: the bech32m encoder, its linear checksum, a
  reference decoder, and two test vectors of BIP 350 worked through.
- `Placement.dfy`, `ShardDirs.dfy`, `FleetTable.dfy`, `FleetPlan.dfy`, `Replan.dfy`, `Manifests.dfy`: the
  parts of the fleet: placement, directories, the shard table, the startup plan, planning again from
  the shard databases, manifest files.
- `FleetMachine.dfy`: every interleaving of onboardings, dropped requests, unloads, crashes, power
  losses and restarts, as a transition system with the mutex explicit. `FleetManager.dfy`: the object
  itself; its `Onboard` is shown to take exactly the machine's steps. `FleetStartup.dfy`: the startup
  path, shown to be the machine's restart.
- `Reload.dfy`, `PathOverlap.dfy`, `Fingerprint.dfy`, `Endpoint.dfy`, `Backoff.dfy`: configuration reload,
  directory overlap, certificate pins, endpoint resolution, reconnect pacing.
- `Numerals.dfy`, `Ordering.dfy`, `Characters.dfy`, `Wrappers.dfy`: positional notation, string order and
  sorting, the last occurrence of a character, options.

`dafny verify dfyconfig.toml` checks everything.

Six promises of the source turned out to hold only under a condition, which is stated exactly:

- The verdict on a *zero* amount depends on how it is written (`ZeroVerdict`, `ZeroSpellingsDiffer`); on
  every non-zero value it does not (`SameValueSameVerdict`).
- The cohort rule of `place_members` adds two `u32`s, which wrap around in a release build
  (`CohortWraps`); it is the documented rule exactly when the sum fits (`CohortExact`).
- Shard directory names sort in shard order for up to ten thousand shards (`ListingOrderExact`).
- A restart finds a shard exactly when nothing but directories lies at the shard paths below it:
  `next_free_shard_dir` asks `exists()`, `existing_shard_dirs` asks `is_dir()` (`FleetSound`,
  `NextFreeExtendsPrefix`, `PlainFileStrandsShard`). Everything else holds on any disk.
- The comment in `onboard` calls a failed removal the one way to leave a manifest whose wallet was not
  placed. For a call that returns, it is (`CallReturns`); a call dropped with its request while it
  awaits a shard leaves one too (`CallCancelled`).
- Colons in a certificate fingerprint are optional everywhere except beyond whitespace at either end
  (`ColonIrrelevantInside`, `ColonBeforeIndent`): trimming comes first.

Inputs from outside appear as parameters: the file system's and the shard actors' answers (`Env`, or
free choices of the machine), random draws, whether a key decodes, whether a host name is local, the
accounts found in shard databases, and the rendered lines of a config. A string is a sequence of
Unicode scalar values; a path is its components; a shard's directory is its index, names being
injective.

## Model

| member | source | states |
|---|---|---|
| `AmountSyntax.ScanExact` | src/amount.rs:209-305 | a text scans to a literal exactly when it is that literal's text under the number grammar of section 6 of RFC 8259; so a text is at most one literal, and every other text is rejected |
| `AmountParser.ProcessMantissaDigit` | src/amount.rs:180-194 | the deferred-zero state stands for the digits read (naive value = mantissa * 10^tzeros); folding a digit fails exactly when the digits up to the last non-zero one reach 10^18; flushes plus zeros still deferred account for every digit; no i64 operation overflows |
| `AmountParser.ScanMantissa` | src/amount.rs:216-267 | either mantissa loop consumes the maximal run of digits and fails exactly when their significant part exceeds 10^18 - 1, even if the overflow shows up before the run ends; multiplications never exceed digits read |
| `AmountParser.ReadHead` | src/amount.rs:209-267 | sign, integer part and fraction: the fields of the scanned literal, or a refusal only for a malformed or oversized one; over both loops at most as many multiplications as characters |
| `AmountParser.ReadExponent` | src/amount.rs:268-310 | the exponent part: its signed value, or a refusal only for a malformed exponent or one of 10^18 and more |
| `AmountParser.Rescale` | src/amount.rs:318-337 | the final loop succeeds exactly when the scaled magnitude is at most 10^18 - 1, and then returns it |
| `AmountVerdict.AcceptsNonZero` | src/amount.rs:307-337 | a literal with a non-zero digit denotes n exactly when its significant digits, shifted by the remaining non-negative power of ten, give n within range: a negative shift can never be an integer |
| `AmountVerdict.ExponentTooBig` | src/amount.rs:283-290 | refusing an exponent of 10^18 or more outright loses no representable value, on either sign |
| `AmountParser.ParseFixedPoint` | src/amount.rs:202-338 | accepts exactly the texts that are RFC 8259 numbers whose value times 10^decimals is an integer of magnitude at most 10^18 - 1 (zeros by their written exponent), and returns that integer |
| `Amount.DenotesUnique` | src/amount.rs:202-338 | no text denotes two numbers |
| `Amount.SameValueSameVerdict` | src/amount.rs:196-201 | any two spellings of one non-zero rational get the same verdict |
| `Amount.ZeroVerdict` | src/amount.rs:307-325 | a literal without a non-zero digit is accepted exactly when its written exponent plus decimals lies in 0..17, wherever its zeros stand |
| `Amount.ZeroSpellingsDiffer` | src/amount.rs:318-325 | so 0e9 and 0e-8 are accepted where 0e10 and 0e-9 are not |
| `Amount.SignedRoundTrip` | src/amount.rs:36-46 | parsing the signed printout of any n returns n when its magnitude is below 10^18 and fails otherwise |
| `Amount.ValueToZats` | src/amount.rs:51-66 | Ok(n) exactly for a number or string whose literal denotes n with 0 <= n <= 2,100,000,000,000,000; out of range exactly when the denoted number lies outside; invalid exactly when nothing is denoted; a type error exactly for any other value |
| `Amount.NumberOrString` | src/amount.rs:52-57 | a number and a string with one literal get one answer |
| `Amount.ZatsRoundTrip` | src/amount.rs:27-66 | an amount survives printing and reading exactly when it is at most 21,000,000 * 10^8, and which error a larger one gets |
| `Amount.AmountTextShape` | src/amount.rs:27-32 | a printed amount is whole coins without a superfluous zero, a point and exactly eight digits, worth what it prints |
| `Amount.AmountVectors` | src/amount.rs:202-338 | sign, point and exponent on four literals |
| `Amount.MalformedVectors` | src/amount.rs:209-305 | eight texts outside the grammar are refused |
| `Bech32m.ConvertBits` | scripts/conformance.py:99-108 | the regrouping loop yields ceil(8n/5) symbols whose base-32 value is the data's base-256 value shifted left by the 0 to 4 padding bits |
| `Bech32m.RegroupedValue` | scripts/conformance.py:99-108 | that regrouping in numbers: count, range and value of the symbols |
| `Bech32mChecksum.Polymod` | scripts/conformance.py:110-118 | the nested checksum loops compute the register run, whose step is pinned by GeneratorOfBit and the vectors |
| `Bech32mVectors.GeneratorOfBit` | scripts/conformance.py:111-117 | a single bit shifted out of the register brings in exactly its own generator, for all five |
| `Bech32mChecksum.StepLinear` | scripts/conformance.py:113-117 | the checksum step is linear over exclusive or in register and symbol together |
| `Bech32mChecksum.RunLinear` | scripts/conformance.py:110-118 | so is the whole run, for sequences of any length |
| `Bech32mChecksum.StepInjective` | scripts/conformance.py:113-117 | absorbing a symbol loses nothing about the register |
| `Bech32mChecksum.BurstDetected` | scripts/conformance.py:110-118 | two sequences that differ only within six consecutive places have different checksums, at any length |
| `Bech32mChecksum.ChecksumVerifies` | scripts/conformance.py:120-122 | whatever precedes them, the six appended symbols drive the register to 0x2BC830A3 |
| `Bech32m.Encode` | scripts/conformance.py:94-123 | the method returns the encoded address, which the decoder and the two vectors pin |
| `Bech32m.ExpandedShape` | scripts/conformance.py:120 | the expansion of the human-readable part, index by index: high bits, a zero, low bits |
| `Bech32m.RegroupedBlocks` | scripts/conformance.py:99-108 | whole blocks of five bytes are regrouped by themselves |
| `Bech32m.TagVerifies` | scripts/conformance.py:120-122 | every encoded address passes its own checksum, for any human-readable part |
| `Bech32m.DecodeEncoded` | scripts/conformance.py:94-123 | a decoder that splits at the last '1' recovers human-readable part and bytes from every encoded address |
| `Bech32m.EncodedInjective` | scripts/conformance.py:94-123 | no two inputs share an address |
| `Bech32m.AlteredAddressRejected` | scripts/conformance.py:110-123 | altering a verifying address within six consecutive symbols, one symbol included, makes it undecodable |
| `Bech32mVectors.Bip350Vector` | scripts/conformance.py:98-123 | the empty payload under "a" encodes to the BIP 350 test vector |
| `Bech32mVectors.Bip350AllSymbols` | scripts/conformance.py:94-123 | the BIP 350 vector under "abcdef", whose twenty bytes use all 32 symbols: pins charset, expansion, generators, constant and checksum order |
| `Placement.PlaceMembers` | src/wallet/shard.rs:208-245 | each member in turn goes, while the 32-bit sum fits, to the newest shard that is not sealed and whose oldest birthday is at most cohort_depth above its own, and to a new one past the end exactly when there is none |
| `Placement.TargetFollowsRule` | src/wallet/shard.rs:190-230 | the documented rule decides the shard: an existing one exactly when some shard has room and is empty or in the cohort, and then the newest such |
| `Placement.PlacementsAccount` | src/wallet/shard.rs:190-245 | shards grow by exactly the members placed in them, a shard that received one ends within shard_size, and no new index is skipped |
| `Placement.CohortWraps` | src/wallet/shard.rs:225-229 | with a depth near 2^32 the 32-bit sum wraps and a birthday within the cohort is turned away |
| `Placement.CohortExact` | src/wallet/shard.rs:194-229 | placement follows the documented rule on every table of shards exactly when height plus depth stays below 2^32 (or every shard is sealed) |
| `Placement.CohortVectors` | src/wallet/shard.rs:221-230 | depth, size and newest-first on concrete shards |
| `ShardDirs.ShardDirNameInjective` | src/wallet/shard.rs:261-263 | directory names are injective in the index, past the four padded digits too |
| `ShardDirs.ShardDirNameShape` | src/wallet/shard.rs:261-263 | the name is shard- and the index in decimal, zero-padded to four digits and never beyond |
| `ShardDirs.ListingOrderExact` | src/wallet/shard.rs:259-263 | a listing sorts in shard order, as the comment promises, for up to 10,000 shards and for no more |
| `ShardDirs.NextFreeShardDir` | src/fleet.rs:337-346 | terminates on a finite disk with the first index at or after from whose path does not exist |
| `ShardDirs.ExistingShardDirs` | src/fleet.rs:391-401 | returns exactly the gap-free run of directories from index 0 |
| `ShardDirs.NextFreeExtendsPrefix` | src/fleet.rs:337-401 | a search started within that run returns the least free index, and the new directory extends the run exactly when no non-directory occupies its end |
| `ShardDirs.PlainFileStrandsShard` | src/fleet.rs:337-401 | a plain file named like the next shard sends the new shard past a gap, where a restart does not look |
| `ShardDirs.ReachedInPrefix` | src/fleet.rs:391-401 | a shard directory with nothing missing below it is found by the scan exactly when nothing but directories lies below it |
| `FleetTable.AdmitOk` | src/fleet.rs:1010-1019 | joining keeps directories distinct, wallets in one shard each and account counts equal to member counts |
| `FleetTable.OpenOk` | src/fleet.rs:1049-1055 | so does opening a shard in an unused directory |
| `FleetTable.TableCovered` | src/fleet.rs:1027-1035 | pigeonhole: when no path below a registered shard is free, at least as many low indices are taken as there are shards, so the search from the shard count skips no gap |
| `FleetTable.NewShardOnDisk` | src/fleet.rs:1027-1055 | the searched index is the least free one and belongs to no registered shard, and creating it leaves no free path below any shard, on any disk |
| `FleetTable.AdmitFloors` | src/fleet.rs:1014-1018 | each shard's lowest birthday stays the least of the birthdays its members were placed with |
| `FleetTable.OpenFloors` | src/fleet.rs:1049-1055 | the same for a shard opened for one wallet |
| `FleetPlan.Plan` | src/fleet.rs:294-329 | the layout lists, in index order and without empty shards, exactly the shards somebody lives in, each with exactly its members |
| `FleetPlan.PassesAgree` | src/fleet.rs:300-320 | placing the unrecorded wallets in a second pass gives everyone the home one pass over all members would |
| `FleetPlan.ServedOnce` | src/fleet.rs:294-329 | with distinct names every member is listed in one shard and no other |
| `FleetPlan.RecordedStays` | src/fleet.rs:302-309 | an already placed wallet stays at its recorded index |
| `FleetPlan.HomesGapFree` | src/fleet.rs:310-320 | placement skips no index: every shard between the known ones and any home has a member |
| `FleetPlan.StartupTableOk` | src/node.rs:478-555 | the table registered at startup is well formed |
| `FleetPlan.StartupHolds` | src/node.rs:478-555 | and holds exactly the wallets planned for |
| `FleetPlan.StartupFound` | src/node.rs:441-481 | and every shard in it lies in the run of directories the next startup scans |
| `FleetPlan.StartupFloors` | src/node.rs:542-554 | and its lowest birthday is the least it serves |
| `Replan.InspectShard` | src/fleet.rs:358-384 | one database read back: the account count, the least birthday, and every named wallet recorded here, over any earlier record |
| `Replan.InspectShards` | src/node.rs:441-449 | over all shards, each name is recorded at the last database that has it, and it fails exactly when one does not open |
| `Replan.HomeRecorded` | src/fleet.rs:284-309 | once imported, what the next startup reads back for a wallet is the home it was planned |
| `Replan.ReplanSame` | src/fleet.rs:284-329 | startup, imports, startup: the second plan, from the second scan of disk and databases, gives every wallet the same home and lists the same shards with the same members, however full they have become |
| `Manifests.ManifestDir.Write` | src/fleet.rs:154-207 | with a fault at any step: refuses an existing manifest, succeeds exactly without a fault, and at every state passed through other files and existing manifests are untouched and a new manifest is complete and flushed from the moment it is visible |
| `Manifests.CrashServesOldOrNew` | src/fleet.rs:172-206 | after a power loss at any such state, the unflushed rename surviving or not, the directory serves what it served before, or that and the new wallet, and skips nothing more |
| `Manifests.TempNeverManifest` | src/fleet.rs:182 | no temporary is ever any wallet's manifest path |
| `Manifests.WriteAgain` | src/fleet.rs:154-207 | a write stopped anywhere, a power loss in any state it passed through, and the same write again: it succeeds exactly when no manifest was left, the manifest is there either way, and complete unless an unflushed earlier one came back |
| `Manifests.LoadManifests` | src/fleet.rs:104-139 | exactly the .toml files whose stem is ASCII letters, digits, '-', '_', '.' and whose text is a manifest, in strict name order; the other .toml files, in path order, as skipped; whatever order the directory is listed in; the duplicate-name error cannot arise |
| `Manifests.IsManifestExact` | src/fleet.rs:116 | a manifest is a file named something and .toml; .toml alone is not one |
| `Manifests.ValidNameExact` | src/fleet.rs:240-257 | a name is accepted exactly when it is non-empty and holds nothing but ASCII letters, digits, '-', '_' and '.' |
| `Manifests.ManifestStaysInside` | src/fleet.rs:211-213 | so its manifest path holds no separator and stays in the manifest directory |
| `Manifests.LoadOrderIrrelevant` | src/fleet.rs:127-129 | two listings of one directory load the same members in the same order |
| `FleetManager.FleetManager.ShardHolding` | src/fleet.rs:1061-1066 | finds a shard listing the name exactly when there is one |
| `FleetManager.FleetManager.Place` | src/fleet.rs:960-1058 | every path through place is a path of the machine; a held wallet fails exactly when its import had failed and the shard refuses it again, a wallet handed to a shard when the shard refuses, a new shard when its directory or actor fails; one task, named after the shard, is added exactly when a shard is opened |
| `FleetManager.FleetManager.Onboard` | src/fleet.rs:904-956 | every path through onboard is a path of the machine from entry to return; an error leaves table, registry and existing manifests as they were, and a manifest of its own exactly when one was written and its removal failed; success serves the wallet from one shard; which result arises is characterised exactly; in particular a name is refused exactly for being empty or holding a character outside ASCII letters, digits, '-', '_' and '.' |
| `FleetManager.FollowedCall` | src/fleet.rs:904-1058 | any call followed step by step to its end keeps the fleet well formed and leaves what its result promises, an own manifest after an error exactly when the last step was a failed removal |
| `FleetStartup.RegisterAll` | src/node.rs:478-559 | the startup loop: every directory made so far is on disk wherever it stops; it succeeds exactly when nothing is in the way and nothing fails, and then the table is the layout and every member is served |
| `FleetStartup.StartFleet` | src/node.rs:410-559 | from manifests to running shards: a restart of the machine wherever it stops; once through, the fleet is well formed and a wallet has a shard and is served exactly when its manifest can be read; which error arises is characterised |
| `FleetMachine.NextKeepsInv` | src/fleet.rs:904-1066 | every step of every thread, dropped request, unload, crash, power loss and restart keeps the invariant |
| `FleetMachine.FleetSound` | src/fleet.rs:904-1066 | at every moment of every interleaving, from any directories: no wallet in two shards, no shared directory, account counts equal member counts, each lowest birthday is exactly the least its members were placed with, and a restart finds a shard exactly when no plain file was at a shard path below it |
| `FleetMachine.OneAtATime` | src/fleet.rs:766-771 | at most one onboarding is past the mutex |
| `FleetMachine.CallReturns` | src/fleet.rs:904-956 | under any interleaving, an error returned leaves the table as the call found it, adds no name, removes no manifest that was there, and leaves its own exactly when its removal was tried and failed; success is served from one shard, manifested if asked, with nobody else moved; shards grow only up to shard_size |
| `FleetMachine.CallCancelled` | src/fleet.rs:915-1041 | a call dropped while it holds the mutex has changed neither table nor registry, and leaves its manifest exactly when it was asked to write one |
| `FleetMachine.ReloadKeepsTable` | src/fleet.rs:961-986 | no step of an onboarding for a wallet that already has a shard changes the table or the disk |
| `FleetMachine.ChoiceFollowsRule` | src/fleet.rs:986-1008 | a wallet without a shard is handed to the newest registered shard with room in whose cohort it is, and a new one is opened only when there is none |
| `FleetMachine.NewShardIsLeastFree` | src/fleet.rs:1027-1037 | a new shard's directory did not exist and is the least that did not |
| `FleetMachine.SettledStays` | src/fleet.rs:154-207 | a flushed manifest that was there before the call in flight stays unaltered through every later onboarding, rollback, dropped request, crash, power loss and restart |
| `FleetMachine.RestartServes` | src/node.rs:410-559 | a restart that comes up serves every wallet whose manifest can be read |
| `FleetMachine.OnboardedForGood` | src/fleet.rs:885-956 | a wallet onboarded with a manifest whose directory flush worked is served, from a shard, by every later restart that comes up |
| `Reload.ChangedKeys` | src/config.rs:1180-1222 | the changed keys, strictly sorted: exactly those with a disagreeing line or present on one side only |
| `Reload.ToMapLast` | src/config.rs:1200-1211 | a key rendered twice counts with its last value |
| `Reload.ChangedMeansDiffers` | src/config.rs:1199-1219 | when no key is rendered twice, that is exactly a difference in presence or value |
| `Reload.ApplyReload` | src/config.rs:1130-1169 | both limits become the new ones, applied lists exactly the ones that moved with old and new value, and requires_restart is the sorted non-reloadable changed keys |
| `Reload.ReloadEach` | src/config.rs:1133-1154 | over any sequence of reloads, an empty one included, the limits are the last ones read, and every report lists what that reload moved from the limits in force, on entry for the first |
| `Reload.RepeatAppliesNothing` | src/config.rs:1133-1135 | a report lists nothing exactly when the config repeats the limits in force |
| `PathOverlap.FleetPathConflict` | src/config.rs:136-148 | None exactly when no path lies beneath both a wallet and a fleet directory; otherwise the first conflicting wallet in name order with the path it overlaps |
| `PathOverlap.BeneathMeans` | src/config.rs:142 | beneath is component-wise: the directory and then anything |
| `Fingerprint.ParseExact` | src/backend.rs:83-97 | parsing succeeds exactly when the trimmed, colon-stripped text is 64 hex digits, although its length is measured in bytes |
| `Fingerprint.CaseIrrelevant` | src/backend.rs:81-97 | changing the case of hex digits anywhere in any text, well formed or not, does not change the result |
| `Fingerprint.ColonIrrelevantInside` | src/backend.rs:81-97 | putting a colon anywhere leaves the result as it was exactly when the colon does not stand beyond whitespace at an end; there it is always refused |
| `Fingerprint.ColonBeforeIndent` | src/backend.rs:84 | any 64 hex digits after a space are accepted, and refused with a colon before the space |
| `Fingerprint.MarginIrrelevant` | src/backend.rs:81-84 | whitespace around a text does not change the result |
| `Fingerprint.Utf8Bounds` | src/backend.rs:85-90 | the length reported is in UTF-8 bytes, at every boundary of the encoding |
| `Fingerprint.WhitespaceExact` | src/backend.rs:84 | what is trimmed: the twenty-five characters with the Unicode property White_Space |
| `Fingerprint.Display` | src/backend.rs:116-128 | the loop prints the digest |
| `Fingerprint.ShownShape` | src/backend.rs:116-128 | as upper-case pairs, high half first, separated by colons |
| `Fingerprint.HexAlphabet` | src/backend.rs:93-124 | the digits printed are 0-9 and A-F, and both cases read as their value |
| `Fingerprint.ParseShown` | src/backend.rs:83-128 | parsing a displayed fingerprint returns it, for all 32-byte values |
| `Endpoint.ResolveWritten` | src/backend.rs:804-866 | host and port written after a scheme come back as written, trailing slash or not |
| `Endpoint.ResolveBare` | src/backend.rs:838-849 | a host and port that start with none of the three schemes are a lightwalletd endpoint with no forced TLS mode |
| `Endpoint.ResolveExact` | src/backend.rs:832-866 | a token resolves to a host and port exactly when after its scheme it spells them: a non-empty host, a port below 2^16 in digits with an optional plus, any slashes, and no port only after https |
| `Endpoint.Presets` | src/backend.rs:804-829 | zebra and zecrocks on every network: host, port, kind and every default |
| `Endpoint.ResolveWithoutPort` | src/backend.rs:842-858 | without a port https means 443 and the other schemes are refused |
| `Endpoint.Server.ApplyZebraAuth` | src/backend.rs:756-760 | credentials reach a zebra endpoint only |
| `Endpoint.Server.ApplyCleartextPolicy` | src/backend.rs:765-767 | the policy is replaced, nothing else |
| `Endpoint.Server.ApplyTls` | src/backend.rs:772-778 | TLS options are replaced except for a mode already forced |
| `Endpoint.Server.ApplyTransparentOverride` | src/backend.rs:783-792 | the override is ignored on a zebra endpoint |
| `Endpoint.Server.ApplyProxy` | src/backend.rs:798-800 | the proxy applies to both kinds |
| `Endpoint.ApplyAllKeeps` | src/backend.rs:756-800 | under any settings in any order host, port and kind stay, the forced TLS mode is the first one set, and a lightwalletd endpoint gains no credentials |
| `Endpoint.WalletTls` | src/backend.rs:756-800 | the five settings in the order a wallet applies them: every field of the result |
| `Endpoint.SchemeSurvives` | src/backend.rs:756-866 | from token to dial: scheme-forced TLS survives every sequence of settings and lightwalletd carries no zebra credentials |
| `Endpoint.EffectiveFields` | src/config.rs:593-627 | each of the eight fields by itself, whatever else is overridden: absent keeps the global value, present is exactly its own; policy and proxy stay the daemon's |
| `Endpoint.OverrideLaws` | src/config.rs:597-627 | no override keeps the global settings, a full one replaces them under the daemon's policy, and overriding is idempotent |
| `Endpoint.EmptyMeansNoEffect` | src/config.rs:584-592 | an override is empty exactly when it changes no global settings, but for the name of a CA file |
| `Endpoint.RefusedExactly` | src/config.rs:2572-2595 | settings are refused exactly when a pin or private CA meets skip-verify, tls off or an http token |
| `Endpoint.EveryWalletValidated` | src/config.rs:2215-2224 | checking the global settings and the wallets that override something covers every wallet |
| `Endpoint.AuthenticatedDial` | src/backend.rs:525-664 | a lightwalletd wallet with pins or a private CA whose settings were accepted and whose preflight passes dials TLS and takes the pinned or the root-verified arm |
| `Endpoint.WalletDial` | src/backend.rs:453-664 | from any wallet settings: the scheme, then the setting, then locality decide on TLS; when plaintext passes preflight; and exactly when each of the four arms is taken |
| `Endpoint.ServerOverrideKeepsPins` | src/config.rs:593-596 | a wallet that overrides only its server keeps the global pins and dials the pinned arm |
| `Backoff.Backoff.NextDelay` | src/backoff.rs:38-43 | a whole number of milliseconds up to the cap, any of them drawable, and a saturating attempt count, despite the 64-bit narrowing |
| `Backoff.CapIsMinimum` | src/backoff.rs:27-35 | the cap is min(base * 2^min(attempt,31), max) even when the product overflows |
| `Backoff.CapMonotone` | src/backoff.rs:27-35 | between resets the cap never falls |
| `Backoff.CapGrowsUntilReset` | src/backoff.rs:27-48 | along any run the cap never falls until the next reset |
| `Backoff.Perform` | src/backoff.rs:38-48 | over any run of delays and resets, with k delays since the last reset, each delay is at most min(base * 2^min(k,31), max) and at every moment the time since the reset is at most k * max and at most base * (2^k - 1), despite saturation |

## Left out

- AmountParser.ParseFixedPoint: covers texts of up to 10^18 - 101 characters and 0 to 18 decimals; a longer text does not fit in memory, and beyond 10^18 digits a refused exponent could be offset by the fraction.
- Amount.ValueToZats: the same bound on the literal; JSON parsing itself is text in, text out.
- FleetMachine.FleetSound: assumes nobody but the fleet changes the shard directories while it runs or between runs.
- Placement.CohortWraps: models the wrap-around of a release build; a debug build panics instead.
- Shard actors, scanning, SQLite and the import of accounts: an actor's answer is a free choice, and which accounts a restart of the machine finds is arbitrary; `ReplanSame` says what follows when every import is done.
- An actor that accepts a wallet although the request waiting for its answer was dropped: what it then imports is outside the model.
- `inspect_shard` on an account identifier without an account: every identifier listed has one.
- `FleetManager` keeps neither handles nor the actor template; a wallet's handle is its name in the registry.
- The TOML text of a manifest: a file holds the two values or a fragment; a manifest whose viewing key would need escaping is not considered.
- `load_manifests` on a missing or unreadable directory, and file names that are not Unicode.
- `config_show::render` and the line splitting in `changed_keys`: the key-value lines are the input.
- `host_is_local`, the zebra arm of `preflight`, TLS handshakes, SOCKS and dialling beyond the choice of arm.
- `reconcile_accounts`, address derivation, health, locks, privilege dropping and signal handling: foreign types, operating-system plumbing, or small tables that would only add easy members.
- The `Amount` and `SignedAmount` wrappers: they delegate to the functions modelled.
