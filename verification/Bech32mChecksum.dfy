/**
 The checksum of `bech32m_encode`: the step function, its linearity over exclusive or, and what
 follows from it for whole symbol sequences.  All words fit in 30 bits, so `bv30` is exact.
 */
module Bech32mChecksum {

  const BECH32M_CONST: bv30 := 0x2BC830A3

  function Xor(a: bv30, b: bv30): bv30 {
    a ^ b
  }

  function Shift(chk: bv30): bv30 {
    (chk & 0x1FFFFFF) << 5
  }

  function Top(chk: bv30): bv30 {
    chk >> 25
  }

  function Generator(i: nat): bv30
    requires i < 5
  {
    if i == 0 then 0x3B6A57B2
    else if i == 1 then 0x26508E6D
    else if i == 2 then 0x1EA119FA
    else if i == 3 then 0x3D4233DD
    else 0x2A1462B3
  }

  /** Bit `i` of the five bits shifted out. */
  predicate Bit(top: bv30, i: nat)
    requires i < 5
  {
    if i == 0 then top & 1 != 0
    else if i == 1 then top & 2 != 0
    else if i == 2 then top & 4 != 0
    else if i == 3 then top & 8 != 0
    else top & 16 != 0
  }

  function Pick(on: bool, word: bv30): bv30 {
    if on then word else 0
  }

  /** What the first `n` rounds of the inner loop mix in. */
  function Feedback(top: bv30, n: nat): bv30
    requires n <= 5
  {
    if n == 0 then 0 else Xor(Feedback(top, n - 1), Pick(Bit(top, n - 1), Generator(n - 1)))
  }

  function Step(chk: bv30, v: bv30): bv30 {
    Xor(Xor(Shift(chk), v), Feedback(Top(chk), 5))
  }

  /** The register after absorbing `values`, starting from `chk`. */
  function Run(chk: bv30, values: seq<bv30>): bv30
    decreases |values|
  {
    if values == [] then chk else Run(Step(chk, values[0]), values[1..])
  }

  /** The loops of `polymod`. */
  method Polymod(values: seq<bv30>) returns (chk: bv30)
    ensures chk == Run(1, values)
  {
    hide Xor, Shift, Top, Pick, Bit, Generator;
    chk := 1;
    for n := 0 to |values|
      invariant Run(chk, values[n..]) == Run(1, values)
    {
      var v, top := values[n], Top(chk);
      ghost var before := chk;
      chk := Xor(Shift(chk), v);
      ghost var shifted := chk;
      XorLaws(shifted, 0);
      for i := 0 to 5
        invariant chk == Xor(shifted, Feedback(top, i))
      {
        XorAssociates(shifted, Feedback(top, i), Pick(Bit(top, i), Generator(i)));
        chk := Xor(chk, Pick(Bit(top, i), Generator(i)));
      }
      assert chk == Step(before, v);
      assert values[n..][0] == v && values[n..][1..] == values[n + 1..];
    }
  }

  // ---- Exclusive or ------------------------------------------------------------------------

  lemma XorLaws(a: bv30, b: bv30)
    ensures Xor(a, a) == 0 && Xor(a, 0) == a && Xor(0, a) == a
    ensures Xor(Xor(a, b), b) == a && Xor(a, b) == Xor(b, a)
    ensures Xor(a, b) == 0 ==> a == b
  {
  }

  lemma XorIs(a: bv30, b: bv30)
    ensures Xor(a, b) == a ^ b
  {
  }

  lemma BitwiseAssociates(a: bv30, b: bv30, c: bv30)
    ensures (a ^ b) ^ c == a ^ (b ^ c)
  {
  }

  lemma XorAssociates(a: bv30, b: bv30, c: bv30)
    ensures Xor(Xor(a, b), c) == Xor(a, Xor(b, c))
  {
    hide Xor;
    XorIs(a, b);
    XorIs(b, c);
    XorIs(a ^ b, c);
    XorIs(a, b ^ c);
    BitwiseAssociates(a, b, c);
  }

  lemma Exchange(a: bv30, b: bv30, c: bv30, d: bv30)
    ensures Xor(Xor(a, b), Xor(c, d)) == Xor(Xor(a, c), Xor(b, d))
  {
    hide Xor;
    XorAssociates(a, b, Xor(c, d));
    XorAssociates(b, c, d);
    XorLaws(b, c);
    XorAssociates(c, b, d);
    XorAssociates(a, c, Xor(b, d));
  }

  // ---- Linearity ---------------------------------------------------------------------------

  lemma PickLinear(x: bool, y: bool, word: bv30)
    ensures Pick(x != y, word) == Xor(Pick(x, word), Pick(y, word))
  {
    hide Xor;
    XorLaws(word, word);
    XorLaws(0, 0);
  }

  lemma BitLinear(a: bv30, b: bv30, i: nat)
    requires i < 5
    ensures Bit(Xor(a, b), i) == (Bit(a, i) != Bit(b, i))
  {
    if i == 0 {
    } else if i == 1 {
    } else if i == 2 {
    } else if i == 3 {
    } else {
    }
  }

  lemma {:induction false} FeedbackLinear(a: bv30, b: bv30, n: nat)
    requires n <= 5
    ensures Feedback(Xor(a, b), n) == Xor(Feedback(a, n), Feedback(b, n))
  {
    hide Xor, Pick, Bit, Generator;
    if n == 0 {
      XorLaws(0, 0);
    } else {
      var i, g := n - 1, Generator(n - 1);
      FeedbackLinear(a, b, i);
      BitLinear(a, b, i);
      PickLinear(Bit(a, i), Bit(b, i), g);
      Exchange(Feedback(a, i), Feedback(b, i), Pick(Bit(a, i), g), Pick(Bit(b, i), g));
    }
  }

  lemma ShiftLinear(a: bv30, b: bv30)
    ensures Shift(Xor(a, b)) == Xor(Shift(a), Shift(b))
    ensures Top(Xor(a, b)) == Xor(Top(a), Top(b))
  {
  }

  lemma StepLinear(a: bv30, b: bv30, u: bv30, v: bv30)
    ensures Step(Xor(a, b), Xor(u, v)) == Xor(Step(a, u), Step(b, v))
  {
    hide Feedback, Xor, Shift, Top;
    ShiftLinear(a, b);
    FeedbackLinear(Top(a), Top(b), 5);
    Exchange(Shift(a), Shift(b), u, v);
    Exchange(Xor(Shift(a), u), Xor(Shift(b), v), Feedback(Top(a), 5), Feedback(Top(b), 5));
  }

  ghost function Difference(xs: seq<bv30>, ys: seq<bv30>): (ds: seq<bv30>)
    requires |xs| == |ys|
    ensures |ds| == |xs| && forall i :: 0 <= i < |ds| ==> ds[i] == Xor(xs[i], ys[i])
  {
    seq(|xs|, i requires 0 <= i < |xs| => Xor(xs[i], ys[i]))
  }

  /** The register is linear in the start word and the symbols together. */
  lemma {:induction false} RunLinear(a: bv30, b: bv30, xs: seq<bv30>, ys: seq<bv30>)
    requires |xs| == |ys|
    ensures Run(Xor(a, b), Difference(xs, ys)) == Xor(Run(a, xs), Run(b, ys))
    decreases |xs|
  {
    hide Xor, Step;
    if xs != [] {
      StepLinear(a, b, xs[0], ys[0]);
      RunLinear(Step(a, xs[0]), Step(b, ys[0]), xs[1..], ys[1..]);
      assert Difference(xs, ys)[1..] == Difference(xs[1..], ys[1..]);
    }
  }

  lemma {:induction false} RunConcat(chk: bv30, xs: seq<bv30>, ys: seq<bv30>)
    ensures Run(chk, xs + ys) == Run(Run(chk, xs), ys)
    decreases |xs|
  {
    hide Step;
    if xs == [] {
      assert xs + ys == ys;
    } else {
      assert (xs + ys)[1..] == xs[1..] + ys;
      RunConcat(Step(chk, xs[0]), xs[1..], ys);
    }
  }

  // ---- Injectivity -------------------------------------------------------------------------

  lemma StepKernel(d: bv30)
    requires Step(d, 0) == 0
    ensures d == 0
  {
    var t := Top(d);
    assert Feedback(t, 5) == Xor(Feedback(t, 4), Pick(Bit(t, 4), Generator(4)));
    assert Feedback(t, 3) == Xor(Feedback(t, 2), Pick(Bit(t, 2), Generator(2)));
    assert Feedback(t, 1) == Pick(Bit(t, 0), Generator(0));
  }

  /** Absorbing a symbol loses nothing: the register before it can be told from the one after. */
  lemma StepInjective(a: bv30, b: bv30, v: bv30)
    requires Step(a, v) == Step(b, v)
    ensures a == b
  {
    hide Xor, Step;
    StepLinear(a, b, v, v);
    XorLaws(v, v);
    XorLaws(Step(a, v), Step(b, v));
    StepKernel(Xor(a, b));
    XorLaws(a, b);
  }

  lemma {:induction false} RunInjective(a: bv30, b: bv30, xs: seq<bv30>)
    requires Run(a, xs) == Run(b, xs)
    ensures a == b
    decreases |xs|
  {
    hide Step;
    if xs != [] {
      RunInjective(Step(a, xs[0]), Step(b, xs[0]), xs[1..]);
      StepInjective(a, b, xs[0]);
    }
  }

  // ---- Six symbols -------------------------------------------------------------------------

  ghost predicate Symbols(xs: seq<bv30>) {
    forall i :: 0 <= i < |xs| ==> xs[i] < 32
  }

  /** Six five-bit symbols side by side. */
  function Pack(xs: seq<bv30>): bv30
    requires |xs| == 6
  {
    (xs[0] << 25) | (xs[1] << 20) | (xs[2] << 15) | (xs[3] << 10) | (xs[4] << 5) | xs[5]
  }

  /** The six symbols of a word, most significant first. */
  function Unpack(word: bv30): (xs: seq<bv30>)
    ensures |xs| == 6
  {
    [(word >> 25) & 31, (word >> 20) & 31, (word >> 15) & 31, (word >> 10) & 31, (word >> 5) & 31, word & 31]
  }

  lemma UnpackPack(word: bv30)
    ensures Symbols(Unpack(word)) && Pack(Unpack(word)) == word
  {
  }

  lemma PackZero(xs: seq<bv30>)
    requires |xs| == 6 && Symbols(xs) && Pack(xs) == 0
    ensures forall i :: 0 <= i < 6 ==> xs[i] == 0
  {
  }

  lemma StepSmall(chk: bv30, v: bv30)
    requires chk < 0x2000000
    ensures Step(chk, v) == Push(chk, v)
  {
    assert Top(chk) == 0 && Shift(chk) == chk << 5;
    assert Feedback(0, 1) == 0;
    assert Feedback(0, 3) == 0;
    assert Feedback(0, 5) == 0;
  }

  lemma RunUnrolled(chk: bv30, xs: seq<bv30>)
    requires |xs| == 6
    ensures Run(chk, xs) == Step(Step(Step(Step(Step(Step(chk, xs[0]), xs[1]), xs[2]), xs[3]), xs[4]), xs[5])
  {
    hide Step;
    var c1 := Step(chk, xs[0]);
    var c2 := Step(c1, xs[1]);
    var c3 := Step(c2, xs[2]);
    var c4 := Step(c3, xs[3]);
    var c5 := Step(c4, xs[4]);
    assert Run(chk, xs) == Run(c1, xs[1..]);
    assert Run(c1, xs[1..]) == Run(c2, xs[2..]);
    assert Run(c2, xs[2..]) == Run(c3, xs[3..]);
    assert Run(c3, xs[3..]) == Run(c4, xs[4..]);
    assert Run(c4, xs[4..]) == Run(c5, xs[5..]);
    assert Run(c5, xs[5..]) == Step(c5, xs[5]);
  }

  function Push(chk: bv30, v: bv30): bv30 {
    (chk << 5) ^ v
  }

  lemma PushFits(a: bv30, b: bv30, c: bv30, d: bv30, e: bv30)
    requires a < 32 && b < 32 && c < 32 && d < 32 && e < 32
    ensures Push(a, b) < 0x400 && Push(Push(a, b), c) < 0x8000 && Push(Push(Push(a, b), c), d) < 0x100000
    ensures Push(Push(Push(Push(a, b), c), d), e) < 0x2000000
  {
  }

  lemma PushSix(a: bv30, b: bv30, c: bv30, d: bv30, e: bv30, f: bv30)
    requires a < 32 && b < 32 && c < 32 && d < 32 && e < 32 && f < 32
    ensures Push(0, a) == a
    ensures Push(Push(Push(Push(Push(a, b), c), d), e), f) == Pack([a, b, c, d, e, f])
  {
  }

  lemma StepsSix(a: bv30, b: bv30, c: bv30, d: bv30, e: bv30, f: bv30)
    requires a < 32 && b < 32 && c < 32 && d < 32 && e < 32 && f < 32
    ensures Step(Step(Step(Step(Step(Step(0, a), b), c), d), e), f) == Pack([a, b, c, d, e, f])
  {
    hide Step, Push, Pack;
    PushFits(a, b, c, d, e);
    StepSmall(0, a);
    StepSmall(a, b);
    StepSmall(Push(a, b), c);
    StepSmall(Push(Push(a, b), c), d);
    StepSmall(Push(Push(Push(a, b), c), d), e);
    StepSmall(Push(Push(Push(Push(a, b), c), d), e), f);
    PushSix(a, b, c, d, e, f);
  }

  /** From a cleared register six symbols are absorbed without any feedback. */
  lemma RunSix(xs: seq<bv30>)
    requires |xs| == 6 && Symbols(xs)
    ensures Run(0, xs) == Pack(xs)
  {
    hide Step, Pack, Run;
    RunUnrolled(0, xs);
    StepsSix(xs[0], xs[1], xs[2], xs[3], xs[4], xs[5]);
    assert xs == [xs[0], xs[1], xs[2], xs[3], xs[4], xs[5]];
  }

  /**
   A change confined to six consecutive symbols always changes the checksum, for sequences of any
   length: no error burst of up to six symbols goes unnoticed.
   */
  lemma BurstDetected(chk: bv30, xs: seq<bv30>, ys: seq<bv30>, at: nat)
    requires |xs| == |ys| && Symbols(xs) && Symbols(ys)
    requires at + 6 <= |xs| && xs[..at] == ys[..at] && xs[at + 6..] == ys[at + 6..]
    requires Run(chk, xs) == Run(chk, ys)
    ensures xs == ys
  {
    hide Step, Xor, Pack, Run;
    var u, v := xs[at..at + 6], ys[at..at + 6];
    var c := Run(chk, xs[..at]);
    RunThrough(chk, xs, at);
    RunThrough(chk, ys, at);
    RunInjective(Run(c, u), Run(c, v), xs[at + 6..]);
    SliceSymbols(xs, at);
    SliceSymbols(ys, at);
    SixDetected(c, u, v);
    assert xs == xs[..at] + u + xs[at + 6..] && ys == ys[..at] + v + ys[at + 6..];
  }

  lemma SliceSymbols(xs: seq<bv30>, at: nat)
    requires Symbols(xs) && at + 6 <= |xs|
    ensures Symbols(xs[at..at + 6])
  {
  }

  lemma RunThrough(chk: bv30, xs: seq<bv30>, at: nat)
    requires at + 6 <= |xs|
    ensures Run(chk, xs) == Run(Run(Run(chk, xs[..at]), xs[at..at + 6]), xs[at + 6..])
  {
    hide Step, Run;
    assert xs == xs[..at] + xs[at..at + 6] + xs[at + 6..];
    RunConcat(chk, xs[..at] + xs[at..at + 6], xs[at + 6..]);
    RunConcat(chk, xs[..at], xs[at..at + 6]);
  }

  lemma SixDetected(chk: bv30, u: seq<bv30>, v: seq<bv30>)
    requires |u| == |v| == 6 && Symbols(u) && Symbols(v)
    requires Run(chk, u) == Run(chk, v)
    ensures u == v
  {
    hide Step, Xor, Pack, Run;
    var d := Difference(u, v);
    RunLinear(chk, chk, u, v);
    XorLaws(chk, chk);
    XorLaws(Run(chk, u), Run(chk, v));
    assert Symbols(d) by {
      forall i | 0 <= i < 6 ensures d[i] < 32 {
        XorSymbols(u[i], v[i]);
      }
    }
    RunSix(d);
    PackZero(d);
    forall i | 0 <= i < 6 ensures u[i] == v[i] {
      assert d[i] == 0;
      XorLaws(u[i], v[i]);
    }
  }

  lemma XorSymbols(a: bv30, b: bv30)
    requires a < 32 && b < 32
    ensures Xor(a, b) < 32
  {
  }

  // ---- The appended checksum ---------------------------------------------------------------

  const SIX_ZEROS: seq<bv30> := [0, 0, 0, 0, 0, 0]

  /** The six symbols `bech32m_encode` appends after `values`. */
  function Checksum(values: seq<bv30>): (xs: seq<bv30>)
    ensures |xs| == 6
  {
    Unpack(Xor(Run(1, values + SIX_ZEROS), BECH32M_CONST))
  }

  /** The appended symbols drive the register to the bech32m constant, whatever came before. */
  lemma ChecksumVerifies(values: seq<bv30>)
    ensures Symbols(Checksum(values))
    ensures Run(1, values + Checksum(values)) == BECH32M_CONST
  {
    hide Step, Xor, Pack, Unpack, Run;
    var c, z := Run(1, values), SIX_ZEROS;
    var r := Run(c, z);
    var word := Xor(r, BECH32M_CONST);
    var cs := Unpack(word);
    RunConcat(1, values, z);
    RunConcat(1, values, cs);
    UnpackPack(word);
    RunLinear(c, 0, z, cs);
    XorLaws(c, c);
    assert Difference(z, cs) == cs by {
      forall i | 0 <= i < 6 ensures Xor(z[i], cs[i]) == cs[i] {
        XorLaws(cs[i], cs[i]);
      }
    }
    RunSix(cs);
    XorLaws(r, BECH32M_CONST);
    XorLaws(BECH32M_CONST, r);
    XorLaws(r, word);
  }
}
