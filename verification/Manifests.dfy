/**
 Wallet manifests: the file-system steps of `write_manifest`, what a crash between any two of them
 can leave, and what `load_manifests` makes of a directory.  A manifest's text stands for the two
 values in it; anything else a file may hold is a fragment.
 */
module Manifests {
  import opened Wrappers
  import opened Characters
  import opened Placement
  import opened Ordering

  datatype Body = Manifest(ufvk: string, birthday: u32) | Fragment(text: string)

  /** A file, and whether its contents have reached the disk. */
  datatype File = File(body: Body, synced: bool)

  /** The manifest directory. */
  type Files = map<string, File>

  /**
   Entries renamed into the directory or removed from it since it was last flushed: each path with
   the file that was put or removed there.  A power loss can bring back either state.
   */
  type Loose = set<(string, File)>

  // ---- Names -------------------------------------------------------------------------------

  /** `Path::extension`: none without a dot, or when the only dot comes first. */
  function Extension(file: string): Option<string> {
    var p := LastIndexOf(file, '.');
    if p <= 0 then None else Some(file[p + 1..])
  }

  /** `Path::file_stem` */
  function Stem(file: string): string {
    var p := LastIndexOf(file, '.');
    if p <= 0 then file else file[..p]
  }

  function ManifestName(name: string): string {
    name + ".toml"
  }

  /** `path.with_extension("toml.tmp")` */
  function TempName(name: string): string {
    Stem(ManifestName(name)) + ".toml.tmp"
  }

  predicate NameChar(c: char) {
    'a' <= c <= 'z' || 'A' <= c <= 'Z' || '0' <= c <= '9' || c == '-' || c == '_' || c == '.'
  }

  /** `check_wallet_name` */
  predicate ValidName(name: string) {
    name != "" && forall i :: 0 <= i < |name| ==> NameChar(name[i])
  }

  /** The names the documentation allows: ASCII letters, digits, '-', '_' and '.', at least one of them. */
  predicate Addressable(name: string) {
    && name != ""
    && forall c :: c in name ==>
         'a' <= c <= 'z' || 'A' <= c <= 'Z' || '0' <= c <= '9' || c == '-' || c == '_' || c == '.'
  }

  lemma ValidNameExact(name: string)
    ensures ValidName(name) <==> Addressable(name)
  {
    if Addressable(name) {
      forall i | 0 <= i < |name| ensures NameChar(name[i]) {
        assert name[i] in name;
      }
    }
  }

  /** The manifest of such a name is a file of the manifest directory itself. */
  lemma ManifestStaysInside(name: string)
    requires Addressable(name)
    ensures '/' !in ManifestName(name) && '\\' !in ManifestName(name)
    ensures ManifestName(name) != "." && ManifestName(name) != ".."
  {
    var file := ManifestName(name);
    assert '/' !in name && '\\' !in name;
    assert '/' !in ".toml" && '\\' !in ".toml";
    assert |file| > 5;
  }

  lemma StemAndExtension(stem: string, ext: string)
    requires stem != "" && '.' !in ext
    ensures Stem(stem + "." + ext) == stem && Extension(stem + "." + ext) == Some(ext)
  {
    hide LastIndexOf;
    SplitAtLast(stem, '.', ext);
    var file := stem + "." + ext;
    assert file[..|stem|] == stem && file[|stem| + 1..] == ext;
  }

  lemma ManifestNameParts(name: string)
    ensures name != "" ==> Stem(ManifestName(name)) == name && Extension(ManifestName(name)) == Some("toml")
    ensures Extension(TempName(name)) == Some("tmp")
  {
    hide Stem, Extension;
    if name != "" {
      StemAndExtension(name, "toml");
      assert ManifestName(name) == name + "." + "toml";
    }
    var stem := Stem(ManifestName(name)) + ".toml";
    StemAndExtension(stem, "tmp");
    assert TempName(name) == stem + "." + "tmp";
  }

  /** No temporary is ever the manifest of any wallet, valid name or not. */
  lemma TempNeverManifest(name: string, other: string)
    ensures TempName(name) != ManifestName(other)
  {
    var t, m := TempName(name), ManifestName(other);
    assert t[|t| - 1] == 'p' && m[|m| - 1] == 'l';
  }

  // ---- Writing -----------------------------------------------------------------------------

  datatype Step = CreateTemp | WriteBody | Sync | Rename

  datatype WriteError = AlreadyExists | Failed(at: Step)

  function Whole(m: Member): Body {
    Manifest(m.ufvk, m.birthday)
  }

  /** The directory after a step succeeds. */
  function Done(files: Files, m: Member, step: Step): Files
    requires step.Sync? || step.Rename? ==> TempName(m.name) in files
  {
    var tmp, target := TempName(m.name), ManifestName(m.name);
    match step
    case CreateTemp => files[tmp := File(Fragment(""), false)]
    case WriteBody => files[tmp := File(Whole(m), false)]
    case Sync => files[tmp := files[tmp].(synced := true)]
    case Rename => (files - {tmp})[target := files[tmp]]
  }

  /** The directory after a step fails: only a write can have taken partial effect. */
  function Faulted(files: Files, m: Member, step: Step, torn: Body): Files {
    if step.WriteBody? then files[TempName(m.name) := File(torn, false)] else files
  }

  /**
   What holds at every point of a write: other files are untouched, an existing manifest is
   untouched, and a new one is complete and on disk from the moment it is visible.
   */
  ghost predicate Safe(before: Files, now: Files, m: Member) {
    var tmp, target := TempName(m.name), ManifestName(m.name);
    && (forall file :: file != tmp && file != target ==> (file in now <==> file in before))
    && (forall file :: file in before && file != tmp && file != target ==> now[file] == before[file])
    && (target in before ==> target in now && now[target] == before[target])
    && (target in now && target !in before ==> now[target] == File(Whole(m), true))
  }

  /** The directory after each step of a write, up to where it stops. */
  ghost function WriteTrail(files: Files, m: Member, fault: Option<Step>, torn: Body): seq<Files> {
    var created := Done(files, m, CreateTemp);
    var written := Done(created, m, WriteBody);
    var synced := Done(written, m, Sync);
    if ManifestName(m.name) in files || fault == Some(CreateTemp) then [files]
    else if fault == Some(WriteBody) then [files, created, Faulted(created, m, WriteBody, torn)]
    else if fault == Some(Sync) then [files, created, written]
    else if fault == Some(Rename) then [files, created, written, synced]
    else [files, created, written, synced, Done(synced, m, Rename)]
  }

  /** The entry a completed write leaves. */
  function NewEntry(m: Member): (string, File) {
    (ManifestName(m.name), File(Whole(m), true))
  }

  class ManifestDir {
    var files: Files
    var loose: Loose

    constructor (files: Files)
      ensures this.files == files && loose == {}
    {
      this.files, loose := files, {};
    }

    /**
     `fault` is the step at which the file system reports an error, if any, and `torn` what a
     failed write leaves.  Flushing the directory afterwards is best-effort: `flushed` says whether
     it worked.  `trail` collects the directory after every step, so a crash can only leave one of
     its states.
     */
    method Write(m: Member, fault: Option<Step>, torn: Body, flushed: bool)
      returns (r: Result<(), WriteError>, ghost trail: seq<Files>)
      modifies this
      ensures ManifestName(m.name) in old(files) ==> r == Err(AlreadyExists) && files == old(files)
      ensures ManifestName(m.name) !in old(files) ==>
                r == (if fault.None? then Ok(()) else Err(Failed(fault.value)))
      ensures r.Ok? ==> files == (old(files) - {TempName(m.name)})[ManifestName(m.name) := File(Whole(m), true)]
      ensures r.Err? ==> (ManifestName(m.name) in files <==> ManifestName(m.name) in old(files))
      ensures loose == if r.Err? then old(loose) else if flushed then {} else old(loose) + {NewEntry(m)}
      ensures forall now :: now in trail ==> Safe(old(files), now, m)
      ensures trail == WriteTrail(old(files), m, fault, torn) && trail[|trail| - 1] == files
    {
      hide TempName, ManifestName, Safe, Done, Faulted;
      trail := [files];
      FaultCases(fault);
      SafeStart(files, m);
      if ManifestName(m.name) in files {
        return Err(AlreadyExists), trail;
      }
      Progress(files, m, torn);
      if fault == Some(CreateTemp) {
        return Err(Failed(CreateTemp)), trail;
      }
      files := Done(files, m, CreateTemp);
      trail := trail + [files];
      if fault == Some(WriteBody) {
        files := Faulted(files, m, WriteBody, torn);
        trail := trail + [files];
        return Err(Failed(WriteBody)), trail;
      }
      files := Done(files, m, WriteBody);
      trail := trail + [files];
      if fault == Some(Sync) {
        return Err(Failed(Sync)), trail;
      }
      files := Done(files, m, Sync);
      trail := trail + [files];
      if fault == Some(Rename) {
        return Err(Failed(Rename)), trail;
      }
      files := Done(files, m, Rename);
      trail := trail + [files];
      loose := if flushed then {} else loose + {NewEntry(m)};
      r := Ok(());
    }
  }

  lemma FaultCases(fault: Option<Step>)
    ensures fault == None || fault == Some(CreateTemp) || fault == Some(WriteBody) || fault == Some(Sync)
            || fault == Some(Rename)
  {
    if fault.Some? {
      match fault.value {
        case CreateTemp =>
        case WriteBody =>
        case Sync =>
        case Rename =>
      }
    }
  }

  lemma SafeStart(files: Files, m: Member)
    ensures Safe(files, files, m)
  {
  }

  /** Touching only the temporary is safe while the manifest is absent. */
  lemma TempSafe(before: Files, file: File, m: Member)
    requires ManifestName(m.name) !in before
    ensures var now := before[TempName(m.name) := file];
            Safe(before, now, m) && ManifestName(m.name) !in now && TempName(m.name) in now
  {
    hide TempName, ManifestName;
    TempNeverManifest(m.name, m.name);
  }

  lemma RenameSafe(before: Files, m: Member)
    requires ManifestName(m.name) !in before
    ensures Safe(before, (before - {TempName(m.name)})[ManifestName(m.name) := File(Whole(m), true)], m)
  {
    hide TempName, ManifestName;
    TempNeverManifest(m.name, m.name);
  }

  /** Each step in turn, from a directory without this wallet's manifest. */
  lemma Progress(files: Files, m: Member, torn: Body)
    requires ManifestName(m.name) !in files
    ensures var tmp := TempName(m.name);
            var created := Done(files, m, CreateTemp);
            var written := Done(created, m, WriteBody);
            && created == files[tmp := File(Fragment(""), false)]
            && Faulted(created, m, WriteBody, torn) == files[tmp := File(torn, false)]
            && written == files[tmp := File(Whole(m), false)]
            && Done(written, m, Sync) == files[tmp := File(Whole(m), true)]
            && Done(Done(written, m, Sync), m, Rename)
               == (files - {tmp})[ManifestName(m.name) := File(Whole(m), true)]
    ensures Safe(files, files[TempName(m.name) := File(Fragment(""), false)], m)
    ensures Safe(files, files[TempName(m.name) := File(torn, false)], m)
    ensures Safe(files, files[TempName(m.name) := File(Whole(m), false)], m)
    ensures Safe(files, files[TempName(m.name) := File(Whole(m), true)], m)
    ensures Safe(files, (files - {TempName(m.name)})[ManifestName(m.name) := File(Whole(m), true)], m)
    ensures TempName(m.name) != ManifestName(m.name)
  {
    hide TempName, ManifestName, Safe;
    TempNeverManifest(m.name, m.name);
    TempSafe(files, File(Fragment(""), false), m);
    TempSafe(files, File(torn, false), m);
    TempSafe(files, File(Whole(m), false), m);
    TempSafe(files, File(Whole(m), true), m);
    RenameSafe(files, m);
  }

  // ---- Loading -----------------------------------------------------------------------------

  predicate IsManifest(file: string) {
    Extension(file) == Some("toml")
  }

  /** `read_manifest` */
  function Read(file: string, body: Body): Option<Member> {
    if ValidName(Stem(file)) && body.Manifest? then Some(Member(Stem(file), body.ufvk, body.birthday)) else None
  }

  ghost predicate Serves(files: Files, m: Member) {
    exists file :: file in files && IsManifest(file) && Read(file, files[file].body) == Some(m)
  }

  ghost predicate Skips(files: Files, file: string) {
    file in files && IsManifest(file) && Read(file, files[file].body).None?
  }

  /** In a name-sorted list, the first name that is followed by itself. */
  function FirstDuplicate(members: seq<Member>): (r: Option<string>)
    ensures r.None? <==> forall i :: 0 <= i < |members| - 1 ==> members[i].name != members[i + 1].name
  {
    if |members| < 2 then None
    else if members[0].name == members[1].name then Some(members[0].name)
    else
      var r := FirstDuplicate(members[1..]);
      assert forall i :: 0 <= i < |members| - 2 ==> members[1..][i] == members[i + 1];
      r
  }

  /**
   Read every manifest.  `listing` is the directory in whatever order the file system returns it.
   The members come out in strict name order, so the result does not depend on that order, and
   the duplicate-name error cannot arise: two files with one stem would be one file.
   */
  method LoadManifests(files: Files, listing: seq<string>)
    returns (r: Result<(seq<Member>, seq<string>), string>)
    requires forall file :: file in listing <==> file in files
    requires forall i, j :: 0 <= i < j < |listing| ==> listing[i] != listing[j]
    ensures r.Ok?
    ensures StrictlySortedBy(r.value.0, (m: Member) => m.name)
    ensures forall m :: m in r.value.0 <==> Serves(files, m)
    ensures forall m :: m in r.value.0 <==>
              && Addressable(m.name) && m.name + ".toml" in files
              && files[m.name + ".toml"].body == Manifest(m.ufvk, m.birthday)
    ensures StrictlySortedBy(r.value.1, (file: string) => file)
    ensures forall file :: file in r.value.1 <==> Skips(files, file)
    ensures forall stem :: stem + ".toml" in r.value.1 <==>
              && stem != "" && stem + ".toml" in files
              && (!Addressable(stem) || files[stem + ".toml"].body.Fragment?)
  {
    hide Stem, Extension, Read, IsManifest, StrictlySortedBy, Addressable;
    var members: seq<Member>, skipped: seq<string> := [], [];
    for n := 0 to |listing|
      invariant forall m :: m in members <==> ServedBy(files, listing[..n], m)
      invariant forall file :: file in skipped <==> file in listing[..n] && Skips(files, file)
      invariant DistinctKeys(members, (m: Member) => m.name)
      invariant DistinctKeys(skipped, (file: string) => file)
    {
      var file := listing[n];
      assert listing[..n + 1] == listing[..n] + [file];
      ServedBySnoc(files, listing[..n], file);
      if IsManifest(file) {
        var read := Read(file, files[file].body);
        if read.Some? {
          NewName(files, listing[..n], file);
          members := members + [read.value];
        } else {
          assert file !in skipped;
          skipped := skipped + [file];
        }
      }
    }
    assert listing[..|listing|] == listing;
    SortDistinct(members, (m: Member) => m.name);
    SortDistinct(skipped, (file: string) => file);
    members := Sort(members, (m: Member) => m.name);
    skipped := Sort(skipped, (file: string) => file);
    NoDuplicate(members);
    WhichFiles(files);
    r := Refuse(FirstDuplicate(members), (members, skipped));
  }

  lemma WhichFiles(files: Files)
    ensures forall m :: Serves(files, m) <==>
              && Addressable(m.name) && m.name + ".toml" in files
              && files[m.name + ".toml"].body == Manifest(m.ufvk, m.birthday)
    ensures forall stem :: Skips(files, stem + ".toml") <==>
              && stem != "" && stem + ".toml" in files
              && (!Addressable(stem) || files[stem + ".toml"].body.Fragment?)
  {
    hide Serves, Skips, Addressable;
    forall m
      ensures Serves(files, m) <==>
              && Addressable(m.name) && m.name + ".toml" in files
              && files[m.name + ".toml"].body == Manifest(m.ufvk, m.birthday)
    {
      ServesExact(files, m);
    }
    forall stem
      ensures Skips(files, stem + ".toml") <==>
              && stem != "" && stem + ".toml" in files
              && (!Addressable(stem) || files[stem + ".toml"].body.Fragment?)
    {
      SkipsExact(files, stem);
    }
  }

  function Refuse<T>(dup: Option<string>, loaded: T): Result<T, string> {
    match dup
    case None => Ok(loaded)
    case Some(name) => Err(name)
  }

  /** Some listed file reads as `m`. */
  ghost predicate ServedBy(files: Files, listing: seq<string>, m: Member) {
    exists file :: file in listing && file in files && IsManifest(file) && Read(file, files[file].body) == Some(m)
  }

  lemma ServedBySnoc(files: Files, listing: seq<string>, file: string)
    requires file in files
    ensures forall m :: ServedBy(files, listing + [file], m) <==>
              ServedBy(files, listing, m) || (IsManifest(file) && Read(file, files[file].body) == Some(m))
  {
    hide Read, IsManifest;
    assert forall f :: f in listing + [file] <==> f in listing || f == file;
    assert file in listing + [file];
  }

  /** A manifest's file name is its stem and `.toml`. */
  lemma StemDetermines(file: string)
    requires IsManifest(file)
    ensures file == Stem(file) + ".toml"
  {
    var p := LastIndexOf(file, '.');
    assert file == file[..p] + [file[p]] + file[p + 1..];
  }

  lemma NewName(files: Files, listing: seq<string>, file: string)
    requires file in files && file !in listing && IsManifest(file) && Read(file, files[file].body).Some?
    ensures forall m :: ServedBy(files, listing, m) ==> m.name != Read(file, files[file].body).value.name
  {
    hide Stem, Extension;
    forall m | ServedBy(files, listing, m) ensures m.name != Read(file, files[file].body).value.name {
      var other :| other in listing && other in files && IsManifest(other) && Read(other, files[other].body) == Some(m);
      StemDetermines(other);
      StemDetermines(file);
    }
  }

  lemma NoDuplicate(members: seq<Member>)
    requires StrictlySortedBy(members, (m: Member) => m.name)
    ensures FirstDuplicate(members).None?
  {
    forall i | 0 <= i < |members| - 1 ensures members[i].name != members[i + 1].name {
      LessTotal(members[i].name, members[i + 1].name);
    }
  }

  /** Whatever order the directory is listed in, the same members load in the same order. */
  lemma LoadOrderIrrelevant(files: Files, xs: seq<Member>, ys: seq<Member>)
    requires StrictlySortedBy(xs, (m: Member) => m.name) && StrictlySortedBy(ys, (m: Member) => m.name)
    requires forall m :: m in xs <==> Serves(files, m)
    requires forall m :: m in ys <==> Serves(files, m)
    ensures xs == ys
  {
    hide StrictlySortedBy, Serves;
    StrictlySortedUnique(xs, ys, (m: Member) => m.name);
  }

  // ---- Which files are wallets -------------------------------------------------------------

  /** A manifest is a file called something other than nothing, then `.toml`. */
  lemma IsManifestExact(file: string)
    ensures IsManifest(file) <==> exists stem :: stem != "" && file == stem + ".toml"
    ensures IsManifest(file) ==> Stem(file) != ""
  {
    hide Stem, Extension;
    if IsManifest(file) {
      StemDetermines(file);
      StemNotEmpty(file);
    }
    if stem :| stem != "" && file == stem + ".toml" {
      StemAndExtension(stem, "toml");
      assert stem + "." + "toml" == file;
    }
  }

  lemma StemNotEmpty(file: string)
    requires IsManifest(file)
    ensures Stem(file) != ""
  {
  }

  /** The stem of `stem.toml`. */
  lemma StemOf(stem: string)
    requires stem != ""
    ensures IsManifest(stem + ".toml") && Stem(stem + ".toml") == stem
  {
    hide Stem, Extension;
    StemAndExtension(stem, "toml");
    assert stem + "." + "toml" == stem + ".toml";
  }

  /** Served: a file named after an allowed wallet name, holding a key and a birthday. */
  lemma ServesExact(files: Files, m: Member)
    ensures Serves(files, m) <==>
            && Addressable(m.name) && m.name + ".toml" in files
            && files[m.name + ".toml"].body == Manifest(m.ufvk, m.birthday)
  {
    hide Stem, Extension, IsManifest, Addressable;
    ValidNameExact(m.name);
    if Serves(files, m) {
      var file :| file in files && IsManifest(file) && Read(file, files[file].body) == Some(m);
      StemDetermines(file);
    }
    if Addressable(m.name) && m.name + ".toml" in files {
      ValidNotEmpty(m.name);
      StemOf(m.name);
    }
  }

  lemma ValidNotEmpty(name: string)
    requires ValidName(name)
    ensures name != ""
  {
  }

  /** Skipped: a `.toml` file whose stem is not an allowed name, or whose text is not a manifest. */
  lemma SkipsExact(files: Files, stem: string)
    ensures Skips(files, stem + ".toml") <==>
            && stem != "" && stem + ".toml" in files
            && (!Addressable(stem) || files[stem + ".toml"].body.Fragment?)
  {
    hide Stem, Extension, IsManifest, Addressable;
    ValidNameExact(stem);
    if stem == "" {
      NoStem();
    } else {
      StemOf(stem);
    }
  }

  lemma NoStem()
    ensures !IsManifest("" + ".toml")
  {
    hide IsManifest;
    assert "" + ".toml" == ".toml";
    IsManifestExact(".toml");
    assert forall stem: string :: |stem + ".toml"| == |stem| + |".toml"|;
  }

  // ---- Crashes -----------------------------------------------------------------------------

  ghost predicate IsLoose(loose: Loose, file: string) {
    exists entry :: entry in loose && entry.0 == file
  }

  lemma LooseEntries(loose: Loose, file: string)
    ensures forall x :: (file, x) in loose ==> IsLoose(loose, file)
  {
    forall x | (file, x) in loose ensures IsLoose(loose, file) {
      assert (file, x).0 == file;
    }
  }

  /**
   What a power loss can leave of the manifests: a synced one whose entry was flushed is as it was; a
   loose entry may be there or not; the contents of an unsynced file, and every other file, are
   anything at all.
   */
  ghost predicate PowerLoss(files: Files, loose: Loose, after: Files) {
    && (forall file :: file in after && IsManifest(file) ==>
          || (file in files && (files[file].synced ==> after[file] == files[file]))
          || (file, after[file]) in loose)
    && (forall file :: file in files && IsManifest(file) && file !in after ==> IsLoose(loose, file))
  }

  ghost predicate ManifestsSynced(files: Files) {
    forall file :: file in files && IsManifest(file) ==> files[file].synced
  }

  /** At most the write's own entry, if it was not there before, is not flushed. */
  ghost predicate OnlyOwnLoose(before: Files, loose: Loose, m: Member) {
    forall entry :: entry in loose ==> entry == NewEntry(m) && entry.0 !in before
  }

  /**
   After a power loss at any point of a write, the directory serves what it served before, or that
   and the new wallet, complete; what it skipped before it still skips, and nothing more.
   */
  lemma CrashServesOldOrNew(before: Files, now: Files, loose: Loose, after: Files, m: Member)
    requires ValidName(m.name) && ManifestsSynced(before) && Safe(before, now, m)
    requires OnlyOwnLoose(before, loose, m) && PowerLoss(now, loose, after)
    ensures forall w :: Serves(after, w) <==> Serves(before, w) || (w == m && NewlyVisible(before, after, m))
    ensures forall file :: Skips(after, file) <==> Skips(before, file)
    ensures ManifestName(m.name) in before ==>
              ManifestName(m.name) in after && after[ManifestName(m.name)] == before[ManifestName(m.name)]
  {
    hide Stem, Extension, TempName, ManifestName;
    var tmp, target := TempName(m.name), ManifestName(m.name);
    ManifestNameParts(m.name);
    TempNeverManifest(m.name, m.name);
    assert IsManifest(target) && !IsManifest(tmp) && Stem(target) == m.name;
    forall file | IsManifest(file) && file != target
      ensures file in after <==> file in before
      ensures file in after ==> after[file] == before[file]
    {
    }
    if target in before {
      assert after[target] == before[target];
    } else if target in after {
      assert after[target] == File(Whole(m), true);
      assert Read(target, after[target].body) == Some(m);
    }
    forall w ensures Serves(after, w) <==> Serves(before, w) || (w == m && NewlyVisible(before, after, m)) {
      if Serves(after, w) {
        var file :| file in after && IsManifest(file) && Read(file, after[file].body) == Some(w);
        assert file != target ==> Read(file, before[file].body) == Some(w);
      }
      if Serves(before, w) {
        var file :| file in before && IsManifest(file) && Read(file, before[file].body) == Some(w);
        assert Read(file, after[file].body) == Some(w);
      }
    }
  }

  ghost predicate NewlyVisible(before: Files, after: Files, m: Member) {
    ManifestName(m.name) !in before && ManifestName(m.name) in after
  }

  /**
   A write that stops anywhere, a power loss in the `cut`-th state it passed through, and the same
   write again without a fault.  The retry finds its way clear exactly when the power loss left no
   manifest; either way the manifest is there, and complete unless an earlier one came back.
   */
  method WriteAgain(dir: ManifestDir, m: Member, fault: Option<Step>, torn: Body, cut: nat, loose: Loose,
                    after: Files, flushed: bool)
    returns (r: Result<(), WriteError>)
    requires ValidName(m.name) && cut < |WriteTrail(dir.files, m, fault, torn)|
    requires loose == dir.loose || (cut == 4 && (loose == {} || loose == dir.loose + {NewEntry(m)}))
    requires PowerLoss(WriteTrail(dir.files, m, fault, torn)[cut], loose, after)
    modifies dir
    ensures r.Ok? <==> ManifestName(m.name) !in after
    ensures ManifestName(m.name) in dir.files && Safe(after, dir.files, m)
    ensures r.Ok? ==> TempName(m.name) !in dir.files
    ensures ManifestName(m.name) !in old(dir.files) && !IsLoose(old(dir.loose), ManifestName(m.name)) ==>
              dir.files[ManifestName(m.name)] == File(Whole(m), true)
  {
    hide TempName, ManifestName, IsManifest, Done, Faulted;
    ghost var target := ManifestName(m.name);
    ghost var before, looseBefore := dir.files, dir.loose;
    ghost var first, trail := dir.Write(m, fault, torn, flushed);
    assert Safe(before, trail[cut], m);
    OwnManifest(m);
    if target !in before && !IsLoose(looseBefore, target) && target in after {
      assert (target, after[target]) in looseBefore ==> IsLoose(looseBefore, target);
      assert after[target] == File(Whole(m), true);
    }
    dir.files := after;
    ghost var trail';
    r, trail' := dir.Write(m, None, torn, flushed);
    assert dir.files in trail';
    TempNeverManifest(m.name, m.name);
  }

  /** A complete manifest reads as the wallet it was written for. */
  lemma ReadsBack(m: Member)
    requires ValidName(m.name)
    ensures IsManifest(ManifestName(m.name)) && Read(ManifestName(m.name), Whole(m)) == Some(m)
  {
    hide ManifestName, Stem, Extension;
    ManifestNameParts(m.name);
  }

  lemma OwnManifest(m: Member)
    requires ValidName(m.name)
    ensures IsManifest(ManifestName(m.name)) && !IsManifest(TempName(m.name))
  {
    hide ManifestName, TempName;
    ManifestNameParts(m.name);
  }
}
