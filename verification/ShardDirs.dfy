/**
 Shard directories on disk: their names, the search for a free one, and the gap-free run of
 directories a restart enumerates.  A path can also be taken by something that is not a directory,
 which `exists()` sees and `is_dir()` does not.
 */
module ShardDirs {
  import opened Numerals
  import opened Decimals
  import opened Ordering

  datatype Entry = Directory | NotDirectory

  /** The fleet directory: what each name in it is. */
  type Disk = map<string, Entry>

  /** `shard-{index:04}` */
  function ShardDirName(index: nat): string {
    "shard-" + PaddedText(index, 4)
  }

  lemma ShardDirNameInjective(i: nat, j: nat)
    requires ShardDirName(i) == ShardDirName(j)
    ensures i == j
  {
    hide PaddedText, Decimal;
    PaddedTextValue(i, 4);
    PaddedTextValue(j, 4);
    assert PaddedText(i, 4) == ShardDirName(i)[6..] && PaddedText(j, 4) == ShardDirName(j)[6..];
  }

  /** `shard-` and the index in decimal, with zeros in front up to four digits and never beyond. */
  lemma ShardDirNameShape(index: nat)
    ensures var s, digits := ShardDirName(index), ShardDirName(index)[6..];
            && s[..6] == "shard-" && AllDigits(digits) && Decimal(digits) == index && |digits| >= 4
            && (index < 10_000 ==> |digits| == 4) && (|digits| > 4 ==> digits[0] != '0')
  {
    hide Decimal, NatText;
    PaddedTextValue(index, 4);
    assert Pow(10, 4) == 10_000;
  }

  predicate Exists(disk: Disk, index: nat) {
    ShardDirName(index) in disk
  }

  predicate IsDir(disk: Disk, index: nat) {
    Exists(disk, index) && disk[ShardDirName(index)] == Directory
  }

  /** Every index up to `index` is a directory, so a scan from 0 reaches it. */
  ghost predicate InPrefix(disk: Disk, index: nat) {
    forall j :: 0 <= j <= index ==> IsDir(disk, j)
  }

  /** The path is taken by something that is not a directory. */
  predicate Plain(disk: Disk, index: nat) {
    Exists(disk, index) && !IsDir(disk, index)
  }

  /** A directory with no path missing below it. */
  ghost predicate Reached(disk: Disk, index: nat) {
    IsDir(disk, index) && forall j :: 0 <= j < index ==> Exists(disk, j)
  }

  /** A scan from 0 gets to such a directory exactly when nothing but directories lies below it. */
  lemma ReachedInPrefix(disk: Disk, index: nat)
    requires Reached(disk, index)
    ensures InPrefix(disk, index) <==> forall j: nat :: j < index ==> !Plain(disk, j)
  {
    hide Exists, IsDir;
    if forall j: nat :: j < index ==> !Plain(disk, j) {
      forall j: nat | j <= index ensures IsDir(disk, j) {
        assert j < index ==> !Plain(disk, j);
      }
    } else {
      var j: nat :| j < index && Plain(disk, j);
      assert !IsDir(disk, j);
    }
  }

  /** The names of shards `from` up to `upTo`. */
  ghost function Names(from: nat, upTo: nat): (s: set<string>)
    requires from <= upTo
    decreases upTo
  {
    if from == upTo then {} else Names(from, upTo - 1) + {ShardDirName(upTo - 1)}
  }

  lemma {:induction false} NamesIn(from: nat, upTo: nat, index: nat)
    requires from <= upTo
    ensures ShardDirName(index) in Names(from, upTo) <==> from <= index < upTo
    decreases upTo
  {
    hide ShardDirName;
    if from < upTo {
      NamesIn(from, upTo - 1, index);
      if ShardDirName(index) == ShardDirName(upTo - 1) {
        ShardDirNameInjective(index, upTo - 1);
      }
    }
  }

  /** The search ends because the disk is finite and no two indices share a name. */
  method NextFreeShardDir(disk: Disk, from: nat) returns (index: nat, dir: string)
    ensures index >= from && dir == ShardDirName(index) && !Exists(disk, index)
    ensures forall j :: from <= j < index ==> Exists(disk, j)
  {
    hide ShardDirName;
    index := from;
    dir := ShardDirName(index);
    while dir in disk
      invariant index >= from && dir == ShardDirName(index)
      invariant forall j :: from <= j < index ==> Exists(disk, j)
      decreases disk.Keys - Names(from, index)
    {
      NamesIn(from, index, index);
      index := index + 1;
      dir := ShardDirName(index);
    }
  }

  method ExistingShardDirs(disk: Disk) returns (dirs: seq<string>)
    ensures forall i :: 0 <= i < |dirs| ==> dirs[i] == ShardDirName(i)
    ensures forall i: nat :: i < |dirs| <==> InPrefix(disk, i)
  {
    hide ShardDirName;
    dirs := [];
    var index := 0;
    while IsDir(disk, index)
      invariant index == |dirs|
      invariant forall i :: 0 <= i < |dirs| ==> dirs[i] == ShardDirName(i)
      invariant forall i :: 0 <= i < |dirs| ==> IsDir(disk, i)
      decreases disk.Keys - Names(0, index)
    {
      NamesIn(0, index, index);
      dirs := dirs + [ShardDirName(index)];
      index := index + 1;
    }
    forall i: nat ensures i < |dirs| <==> InPrefix(disk, i) {
      if InPrefix(disk, i) {
        PrefixStops(disk, index, i);
      }
    }
  }

  lemma PrefixStops(disk: Disk, end: nat, i: nat)
    requires !IsDir(disk, end) && InPrefix(disk, i)
    ensures i < end
  {
  }

  /** The disk after creating a shard directory. */
  function Created(disk: Disk, index: nat): Disk {
    disk[ShardDirName(index) := Directory]
  }

  lemma CreatedIsDir(disk: Disk, index: nat, j: nat)
    ensures IsDir(Created(disk, index), j) <==> j == index || IsDir(disk, j)
    ensures Exists(Created(disk, index), j) <==> j == index || Exists(disk, j)
  {
    hide ShardDirName;
    if ShardDirName(j) == ShardDirName(index) {
      ShardDirNameInjective(j, index);
    }
  }

  /** `end` is where the gap-free run of directories ends. */
  ghost predicate PrefixEnd(disk: Disk, end: nat) {
    !IsDir(disk, end) && forall j :: 0 <= j < end ==> IsDir(disk, j)
  }

  /** `index` is what the search from `from` returns. */
  ghost predicate IsNextFree(disk: Disk, from: nat, index: nat) {
    index >= from && !Exists(disk, index) && forall j :: from <= j < index ==> Exists(disk, j)
  }

  /**
   A search started inside the run of directories returns the least free index, and the new
   directory extends the run exactly when nothing but a directory was missing at its end.
   */
  lemma NextFreeExtendsPrefix(disk: Disk, from: nat, index: nat, end: nat)
    requires PrefixEnd(disk, end) && from <= end && IsNextFree(disk, from, index)
    ensures forall j :: 0 <= j < index ==> Exists(disk, j)
    ensures InPrefix(Created(disk, index), index) <==> !Exists(disk, end)
  {
    hide ShardDirName, IsDir;
    ExistsFromDir(disk);
    assert index >= end;
    forall j: nat ensures IsDir(Created(disk, index), j) <==> j == index || IsDir(disk, j) {
      CreatedIsDir(disk, index, j);
    }
    if !Exists(disk, end) {
      assert index == end;
    } else {
      assert index > end && !IsDir(Created(disk, index), end);
    }
  }

  lemma ExistsFromDir(disk: Disk)
    ensures forall j: nat :: IsDir(disk, j) ==> Exists(disk, j)
  {
  }

  /** A plain file named like the next shard sends the new shard past the gap it leaves. */
  lemma PlainFileStrandsShard()
    ensures var disk: Disk := map[ShardDirName(0) := NotDirectory];
            IsNextFree(disk, 0, 1) && !InPrefix(Created(disk, 1), 1)
  {
    hide ShardDirName;
    var disk: Disk := map[ShardDirName(0) := NotDirectory];
    if ShardDirName(0) == ShardDirName(1) {
      ShardDirNameInjective(0, 1);
    }
    CreatedIsDir(disk, 1, 0);
    assert !IsDir(Created(disk, 1), 0);
  }

  // ---- Listing order -----------------------------------------------------------------------

  /** Digit strings of one length compare as the numbers they are. */
  lemma {:induction false} SameLengthOrder(s: string, t: string)
    requires |s| == |t| && AllDigits(s) && AllDigits(t) && Decimal(s) < Decimal(t)
    ensures Less(s, t)
    decreases |s|
  {
    hide Decimal, Pow;
    EmptyDecimal();
    assert s != "" || t == s;
    var a, b, u, v := s[0], t[0], s[1..], t[1..];
    assert s == [a] + u && t == [b] + v;
    DecimalConcat([a], u);
    DecimalConcat([b], v);
    assert [a] == "" + [a] && [b] == "" + [b];
    DecimalSnoc("", a);
    DecimalSnoc("", b);
    EmptyDecimal();
    DecimalBound(u);
    DecimalBound(v);
    var p := Pow(10, |u|);
    if a > b {
      MulMonotone(DigitValue(b) + 1, DigitValue(a), p);
      Distribute(1, DigitValue(b), 1, p);
      assert false;
    }
    if a == b {
      SameLengthOrder(u, v);
    }
  }

  lemma {:induction false} PrefixOrder(prefix: string, s: string, t: string)
    ensures Less(prefix + s, prefix + t) <==> Less(s, t)
    decreases |prefix|
  {
    if prefix == "" {
      assert prefix + s == s && prefix + t == t;
    } else {
      assert (prefix + s)[1..] == prefix[1..] + s && (prefix + t)[1..] == prefix[1..] + t;
      PrefixOrder(prefix[1..], s, t);
    }
  }

  ghost predicate ListsInOrder(n: nat) {
    forall i, j :: 0 <= i < j < n ==> Less(ShardDirName(i), ShardDirName(j))
  }

  /**
   The zero padding is there so that a directory listing sorts in shard order.  It does for up to
   ten thousand shards and for no more: `shard-10000` sorts before `shard-9999`.
   */
  lemma ListingOrderExact(n: nat)
    ensures ListsInOrder(n) <==> n <= 10_000
  {
    hide PaddedText, ShardDirName, Less;
    if n <= 10_000 {
      forall i, j | 0 <= i < j < n ensures Less(ShardDirName(i), ShardDirName(j)) {
        FourDigitOrder(i, j);
      }
    } else {
      FiveDigitsFirst();
    }
  }

  lemma FourDigitOrder(i: nat, j: nat)
    requires i < j < 10_000
    ensures Less(ShardDirName(i), ShardDirName(j))
  {
    hide PaddedText, Decimal, Less;
    assert Pow(10, 4) == 10_000;
    PaddedTextValue(i, 4);
    PaddedTextValue(j, 4);
    SameLengthOrder(PaddedText(i, 4), PaddedText(j, 4));
    PrefixOrder("shard-", PaddedText(i, 4), PaddedText(j, 4));
  }

  lemma FiveDigitsFirst()
    ensures !Less(ShardDirName(9_999), ShardDirName(10_000))
  {
    hide PaddedText;
    PrefixOrder("shard-", PaddedText(9_999, 4), PaddedText(10_000, 4));
    NineAndOne();
  }

  lemma NineAndOne()
    ensures PaddedText(9_999, 4)[0] == '9' && PaddedText(10_000, 4)[0] == '1'
  {
    assert NatText(9) == "9" && NatText(1) == "1";
    assert NatText(99) == NatText(9) + "9" && NatText(10) == NatText(1) + "0";
    assert NatText(999) == NatText(99) + "9" && NatText(100) == NatText(10) + "0";
    assert NatText(9_999) == NatText(999) + "9" && NatText(1_000) == NatText(100) + "0";
    assert NatText(10_000) == NatText(1_000) + "0";
  }
}
