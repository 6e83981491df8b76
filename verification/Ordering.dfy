/** String order and the library calls that use it: sorting by a string key, and `dedup`. */
module Ordering {

  /** Lexicographic by code point, which is how Rust compares `str`. */
  predicate Less(a: string, b: string)
    decreases |a|
  {
    if b == "" then false
    else if a == "" then true
    else a[0] < b[0] || (a[0] == b[0] && Less(a[1..], b[1..]))
  }

  lemma {:induction false} LessTransitive(a: string, b: string, c: string)
    requires Less(a, b) && Less(b, c)
    ensures Less(a, c)
    decreases |a|
  {
    if a != "" && a[0] == b[0] && b[0] == c[0] {
      LessTransitive(a[1..], b[1..], c[1..]);
    }
  }

  lemma {:induction false} LessTotal(a: string, b: string)
    ensures a != b ==> Less(a, b) || Less(b, a)
    ensures !(Less(a, b) && Less(b, a)) && !Less(a, a)
    decreases |a|
  {
    if a != "" && b != "" && a[0] == b[0] {
      LessTotal(a[1..], b[1..]);
      assert a == [a[0]] + a[1..] && b == [b[0]] + b[1..];
    }
    if a != "" {
      LessTotal(a[1..], a[1..]);
    }
  }

  ghost predicate SortedBy<T>(xs: seq<T>, key: T -> string) {
    forall i, j :: 0 <= i < j < |xs| ==> !Less(key(xs[j]), key(xs[i]))
  }

  ghost predicate StrictlySortedBy<T>(xs: seq<T>, key: T -> string) {
    forall i, j :: 0 <= i < j < |xs| ==> Less(key(xs[i]), key(xs[j]))
  }

  function Insert<T>(x: T, xs: seq<T>, key: T -> string): seq<T> {
    if xs == [] || !Less(key(xs[0]), key(x)) then [x] + xs else [xs[0]] + Insert(x, xs[1..], key)
  }

  function Sort<T>(xs: seq<T>, key: T -> string): seq<T> {
    if xs == [] then [] else Insert(xs[0], Sort(xs[1..], key), key)
  }

  lemma {:induction false} InsertKeeps<T>(x: T, xs: seq<T>, key: T -> string)
    ensures multiset(Insert(x, xs, key)) == multiset(xs) + multiset{x}
    decreases |xs|
  {
    if xs != [] && Less(key(xs[0]), key(x)) {
      InsertKeeps(x, xs[1..], key);
    }
    assert xs != [] ==> xs == [xs[0]] + xs[1..];
  }

  lemma {:induction false} InsertSorted<T>(x: T, xs: seq<T>, key: T -> string)
    requires SortedBy(xs, key)
    ensures SortedBy(Insert(x, xs, key), key)
    decreases |xs|
  {
    if xs == [] {
    } else if Less(key(xs[0]), key(x)) {
      var rest := Insert(x, xs[1..], key);
      InsertSorted(x, xs[1..], key);
      InsertKeeps(x, xs[1..], key);
      forall j | 0 <= j < |rest| ensures !Less(key(rest[j]), key(xs[0])) {
        assert rest[j] in multiset(rest);
        LessTotal(key(x), key(xs[0]));
      }
      PrependSorted(xs[0], rest, key);
    } else {
      forall j | 0 <= j < |xs| ensures !Less(key(xs[j]), key(x)) {
        if Less(key(xs[j]), key(x)) {
          LessTotal(key(xs[0]), key(xs[j]));
          if Less(key(xs[0]), key(xs[j])) {
            LessTransitive(key(xs[0]), key(xs[j]), key(x));
          }
          assert false;
        }
      }
      PrependSorted(x, xs, key);
    }
  }

  lemma PrependSorted<T>(x: T, xs: seq<T>, key: T -> string)
    requires SortedBy(xs, key) && forall j :: 0 <= j < |xs| ==> !Less(key(xs[j]), key(x))
    ensures SortedBy([x] + xs, key)
  {
    var all := [x] + xs;
    forall i, j | 0 <= i < j < |all| ensures !Less(key(all[j]), key(all[i])) {
      if i > 0 {
        assert all[i] == xs[i - 1] && all[j] == xs[j - 1];
      } else {
        assert all[j] == xs[j - 1];
      }
    }
  }

  /** Sorting is a permutation into order. */
  lemma {:induction false} SortSpec<T>(xs: seq<T>, key: T -> string)
    ensures multiset(Sort(xs, key)) == multiset(xs) && SortedBy(Sort(xs, key), key)
    decreases |xs|
  {
    if xs != [] {
      SortSpec(xs[1..], key);
      InsertKeeps(xs[0], Sort(xs[1..], key), key);
      InsertSorted(xs[0], Sort(xs[1..], key), key);
      assert xs == [xs[0]] + xs[1..];
    }
  }

  ghost predicate DistinctKeys<T>(xs: seq<T>, key: T -> string) {
    forall i, j :: 0 <= i < j < |xs| ==> key(xs[i]) != key(xs[j])
  }

  lemma {:induction false} InsertDistinct<T>(x: T, xs: seq<T>, key: T -> string)
    requires DistinctKeys(xs, key) && forall y :: y in xs ==> key(y) != key(x)
    ensures DistinctKeys(Insert(x, xs, key), key)
    decreases |xs|
  {
    hide Less;
    if xs != [] && Less(key(xs[0]), key(x)) {
      var rest := Insert(x, xs[1..], key);
      InsertDistinct(x, xs[1..], key);
      InsertKeeps(x, xs[1..], key);
      forall j | 0 <= j < |rest| ensures key(rest[j]) != key(xs[0]) {
        assert rest[j] in multiset(rest);
      }
      PrependDistinct(xs[0], rest, key);
    } else {
      PrependDistinct(x, xs, key);
    }
  }

  lemma PrependDistinct<T>(x: T, xs: seq<T>, key: T -> string)
    requires DistinctKeys(xs, key) && forall j :: 0 <= j < |xs| ==> key(xs[j]) != key(x)
    ensures DistinctKeys([x] + xs, key)
  {
  }

  /** Sorting distinct keys puts them in strict order and keeps the elements. */
  lemma {:induction false} SortDistinct<T>(xs: seq<T>, key: T -> string)
    requires DistinctKeys(xs, key)
    ensures DistinctKeys(Sort(xs, key), key) && StrictlySortedBy(Sort(xs, key), key)
    ensures forall x :: x in Sort(xs, key) <==> x in xs
    decreases |xs|
  {
    hide DistinctKeys;
    SameElements(xs, key);
    SortSpec(xs, key);
    if xs != [] {
      var rest := Sort(xs[1..], key);
      DistinctTail(xs, key);
      SortDistinct(xs[1..], key);
      SortSpec(xs[1..], key);
      forall y | y in rest ensures key(y) != key(xs[0]) {
        assert y in multiset(rest);
        assert y in multiset(xs[1..]);
      }
      InsertDistinct(xs[0], rest, key);
    }
    StrictFromDistinct(Sort(xs, key), key);
  }

  lemma SameElements<T>(xs: seq<T>, key: T -> string)
    ensures forall x :: x in Sort(xs, key) <==> x in xs
  {
    hide Sort;
    SortSpec(xs, key);
    var sorted := Sort(xs, key);
    assert forall x :: x in sorted <==> x in multiset(sorted);
    assert forall x :: x in xs <==> x in multiset(xs);
  }

  lemma DistinctTail<T>(xs: seq<T>, key: T -> string)
    requires DistinctKeys(xs, key) && xs != []
    ensures DistinctKeys(xs[1..], key) && forall y :: y in xs[1..] ==> key(y) != key(xs[0])
  {
  }

  lemma StrictFromDistinct<T>(xs: seq<T>, key: T -> string)
    requires SortedBy(xs, key) && (xs == [] || DistinctKeys(xs, key))
    ensures DistinctKeys(xs, key) && StrictlySortedBy(xs, key)
  {
    forall i, j | 0 <= i < j < |xs| ensures Less(key(xs[i]), key(xs[j])) {
      LessTotal(key(xs[i]), key(xs[j]));
    }
  }

  /** A strictly sorted sequence is determined by its elements. */
  lemma {:induction false} StrictlySortedUnique<T>(xs: seq<T>, ys: seq<T>, key: T -> string)
    requires StrictlySortedBy(xs, key) && StrictlySortedBy(ys, key)
    requires forall x :: x in xs <==> x in ys
    ensures xs == ys
    decreases |xs|
  {
    if xs == [] {
      EmptyOrFirst(ys);
    } else {
      assert xs[0] in ys && ys != [] && ys[0] in xs;
      FirstIsLeast(xs, ys[0], key);
      FirstIsLeast(ys, xs[0], key);
      LessTotal(key(xs[0]), key(ys[0]));
      var x := xs[0];
      assert x == ys[0];
      TailElements(xs, key);
      TailElements(ys, key);
      StrictlySortedUnique(xs[1..], ys[1..], key);
      assert xs == [x] + xs[1..] && ys == [x] + ys[1..];
    }
  }

  lemma EmptyOrFirst<T>(ys: seq<T>)
    ensures ys == [] || ys[0] in ys
  {
  }

  lemma FirstIsLeast<T>(xs: seq<T>, y: T, key: T -> string)
    requires StrictlySortedBy(xs, key) && y in xs
    ensures y == xs[0] || Less(key(xs[0]), key(y))
  {
  }

  lemma TailElements<T>(xs: seq<T>, key: T -> string)
    requires StrictlySortedBy(xs, key) && xs != []
    ensures StrictlySortedBy(xs[1..], key)
    ensures forall x :: x in xs[1..] <==> x in xs && x != xs[0]
  {
    forall x ensures x in xs[1..] <==> x in xs && x != xs[0] {
      if x in xs[1..] {
        LessTotal(key(xs[0]), key(xs[0]));
      }
      if x in xs && x != xs[0] {
        var i :| 0 <= i < |xs| && xs[i] == x;
        assert xs[1..][i - 1] == x;
      }
    }
  }

  /** `Vec::dedup`: drop an element equal to the one before it. */
  function Dedup(xs: seq<string>): seq<string> {
    if |xs| <= 1 then xs
    else if xs[0] == xs[1] then Dedup(xs[1..])
    else [xs[0]] + Dedup(xs[1..])
  }

  ghost predicate Ascending(xs: seq<string>) {
    forall i, j :: 0 <= i < j < |xs| ==> Less(xs[i], xs[j])
  }

  /** After sorting, `dedup` leaves each element once, in strict order. */
  lemma {:induction false} DedupSorted(xs: seq<string>)
    requires forall i, j :: 0 <= i < j < |xs| ==> !Less(xs[j], xs[i])
    ensures Ascending(Dedup(xs)) && (forall x :: x in Dedup(xs) <==> x in xs)
    ensures xs != [] ==> Dedup(xs) != [] && Dedup(xs)[0] == xs[0]
    decreases |xs|
  {
    if |xs| > 1 {
      var rest := Dedup(xs[1..]);
      DedupSorted(xs[1..]);
      assert xs == [xs[0]] + xs[1..] && xs[1..][0] == xs[1];
      if xs[0] != xs[1] {
        LessTotal(xs[0], xs[1]);
        forall j | 0 <= j < |rest| ensures Less(xs[0], rest[j]) {
          if j > 0 {
            LessTransitive(xs[0], rest[0], rest[j]);
          }
        }
        var all := [xs[0]] + rest;
        forall i, j | 0 <= i < j < |all| ensures Less(all[i], all[j]) {
          if i > 0 {
            assert all[i] == rest[i - 1] && all[j] == rest[j - 1];
          }
        }
      }
    }
  }
}
