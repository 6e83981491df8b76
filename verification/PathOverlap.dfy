/** `fleet_path_conflict`: wallet and fleet directories must not contain one another. */
module PathOverlap {
  import opened Wrappers
  import opened Ordering

  /** A path as its components; `starts_with` is component-wise. */
  type Path = seq<string>

  datatype Wallet = Wallet(name: string, dir: Path)

  /** `p.starts_with(dir)` */
  predicate Beneath(p: Path, dir: Path) {
    dir <= p
  }

  /** Component by component: the directory, then anything at all. */
  lemma BeneathMeans(p: Path, dir: Path)
    ensures Beneath(p, dir) <==> exists rest :: p == dir + rest
  {
    if Beneath(p, dir) {
      assert p == dir + p[|dir|..];
    }
  }

  predicate Overlap(a: Path, b: Path) {
    Beneath(b, a) || Beneath(a, b)
  }

  /** Two directories overlap exactly when some path lies beneath both. */
  lemma OverlapMeansShared(a: Path, b: Path)
    ensures Overlap(a, b) <==> exists p: Path :: Beneath(p, a) && Beneath(p, b)
  {
    if Overlap(a, b) {
      var p := if Beneath(b, a) then b else a;
      assert Beneath(p, a) && Beneath(p, b);
    }
    if p: Path :| Beneath(p, a) && Beneath(p, b) {
      assert a == p[..|a|] && b == p[..|b|];
    }
  }

  predicate Conflicts(w: Wallet, manifestDir: Path, dir: Path) {
    Overlap(w.dir, manifestDir) || Overlap(w.dir, dir)
  }

  /** `wallets` is a `BTreeMap`, so it is walked in name order. */
  method FleetPathConflict(wallets: seq<Wallet>, manifestDir: Path, dir: Path)
    returns (r: Option<(string, Path, Path)>)
    requires StrictlySortedBy(wallets, (w: Wallet) => w.name)
    ensures r.None? <==>
            forall w, p: Path :: w in wallets && Beneath(p, w.dir) ==> !Beneath(p, manifestDir) && !Beneath(p, dir)
    ensures r.None? <==>
            forall w :: w in wallets ==>
              !(w.dir <= manifestDir) && !(manifestDir <= w.dir) && !(w.dir <= dir) && !(dir <= w.dir)
    ensures r.Some? ==>
              var (name, walletDir, fleetDir) := r.value;
              && Wallet(name, walletDir) in wallets && Overlap(walletDir, fleetDir)
              && (walletDir <= fleetDir || fleetDir <= walletDir)
              && fleetDir == (if walletDir <= manifestDir || manifestDir <= walletDir then manifestDir else dir)
              && forall w :: w in wallets && Conflicts(w, manifestDir, dir) ==> w.name == name || Less(name, w.name)
  {
    hide Less;
    for i := 0 to |wallets|
      invariant forall j :: 0 <= j < i ==> !Conflicts(wallets[j], manifestDir, dir)
    {
      var fleetPaths := [manifestDir, dir];
      for j := 0 to 2
        invariant forall k :: 0 <= k < j ==> !Overlap(wallets[i].dir, fleetPaths[k])
      {
        if Overlap(wallets[i].dir, fleetPaths[j]) {
          OverlapMeansShared(wallets[i].dir, fleetPaths[j]);
          assert j == 1 ==> !Overlap(wallets[i].dir, fleetPaths[0]);
          FirstOfThese(wallets, i, manifestDir, dir);
          return Some((wallets[i].name, wallets[i].dir, fleetPaths[j]));
        }
      }
      assert !Overlap(wallets[i].dir, fleetPaths[0]) && !Overlap(wallets[i].dir, fleetPaths[1]);
    }
    forall w, p: Path | w in wallets && Beneath(p, w.dir)
      ensures !Beneath(p, manifestDir) && !Beneath(p, dir)
    {
      OverlapMeansShared(w.dir, manifestDir);
      OverlapMeansShared(w.dir, dir);
    }
    r := None;
  }

  lemma FirstOfThese(wallets: seq<Wallet>, i: nat, manifestDir: Path, dir: Path)
    requires StrictlySortedBy(wallets, (w: Wallet) => w.name) && i < |wallets|
    requires forall j :: 0 <= j < i ==> !Conflicts(wallets[j], manifestDir, dir)
    ensures forall w :: w in wallets && Conflicts(w, manifestDir, dir) ==>
              w.name == wallets[i].name || Less(wallets[i].name, w.name)
  {
    forall w | w in wallets && Conflicts(w, manifestDir, dir)
      ensures w.name == wallets[i].name || Less(wallets[i].name, w.name)
    {
      var j :| 0 <= j < |wallets| && wallets[j] == w;
      assert j >= i;
    }
  }
}
