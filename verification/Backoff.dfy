/** Reconnect backoff: exponential ceiling, full jitter, and bounds over whole runs. */
module Backoff {
  import opened Numerals

  /** Durations are counted in nanoseconds. */
  const MILLI: int := 1_000_000
  const U32_MAX: int := 0xFFFF_FFFF
  const U64_RANGE: int := 0x1_0000_0000_0000_0000
  const SECOND: int := 1000 * MILLI
  const DURATION_MAX: int := (U64_RANGE - 1) * SECOND + 999_999_999

  type Duration = d: int | 0 <= d <= DURATION_MAX

  function Min(a: int, b: int): int {
    if a <= b then a else b
  }

  /** `min(base * 2^min(attempt, 31), max)`, with `max` standing in for a product that overflows. */
  function CapAt(base: Duration, max: Duration, attempt: nat): Duration {
    var product := base * Pow(2, Min(attempt, 31));
    if product > DURATION_MAX then max else Min(product, max)
  }

  lemma CapIsMinimum(base: Duration, max: Duration, attempt: nat)
    ensures 0 <= CapAt(base, max, attempt) == Min(base * Pow(2, Min(attempt, 31)), max)
    ensures CapAt(base, max, attempt) <= base * Pow(2, attempt)
  {
    hide Pow;
    PowMonotone(2, Min(attempt, 31), attempt);
    MulMonotone(Pow(2, Min(attempt, 31)), Pow(2, attempt), base);
  }

  /** Between resets the ceiling never falls. */
  lemma CapMonotone(base: Duration, max: Duration, earlier: nat, later: nat)
    requires earlier <= later
    ensures CapAt(base, max, earlier) <= CapAt(base, max, later)
  {
    hide Pow;
    PowMonotone(2, Min(earlier, 31), Min(later, 31));
    MulMonotone(Pow(2, Min(earlier, 31)), Pow(2, Min(later, 31)), base);
  }

  /** `as_millis() as u64` */
  function CapMillis(cap: Duration): nat {
    (cap / MILLI) % U64_RANGE
  }

  /** A draw in `0..=capMillis`. */
  function Drawn(random: nat, capMillis: nat): nat {
    random % (capMillis + 1)
  }

  lemma DrawnWithin(cap: Duration, random: nat)
    ensures var delay := Drawn(random, CapMillis(cap)) * MILLI; 0 <= delay <= cap && delay % MILLI == 0
    ensures cap / MILLI < U64_RANGE && random <= cap / MILLI ==> Drawn(random, CapMillis(cap)) == random
  {
    var capMillis := CapMillis(cap);
    Euclid(random, capMillis + 1);
    assert Drawn(random, capMillis) <= capMillis <= cap / MILLI;
    if random <= capMillis {
      DivMod(0, random, capMillis + 1);
    }
  }

  class Backoff {
    const base: Duration
    const max: Duration
    var attempt: nat

    constructor (base: Duration, max: Duration)
      ensures this.base == base && this.max == max && attempt == 0
    {
      this.base, this.max, attempt := base, max, 0;
    }

    ghost predicate Valid()
      reads this
    {
      attempt <= U32_MAX
    }

    function Cap(): Duration
      reads this
    {
      CapAt(base, max, attempt)
    }

    /**
     `random` is the raw draw.  The ceiling is narrowed to 64-bit milliseconds before the draw is
     reduced to it; the narrowing can only lower it.
     */
    method NextDelay(random: nat) returns (delay: Duration)
      requires Valid()
      modifies this`attempt
      ensures Valid() && attempt == Min(old(attempt) + 1, U32_MAX)
      ensures delay <= old(Cap()) && delay % 1_000_000 == 0
      ensures old(Cap()) / 1_000_000 < U64_RANGE && random <= old(Cap()) / 1_000_000 ==> delay == random * 1_000_000
    {
      hide CapAt, Drawn, CapMillis;
      var cap := Cap();
      var capMillis := CapMillis(cap);
      DrawnWithin(cap, random);
      attempt := if attempt == U32_MAX then U32_MAX else attempt + 1;
      var jittered := Drawn(random, capMillis);
      delay := jittered * MILLI;
    }

    method Reset()
      modifies this`attempt
      ensures Valid() && attempt == 0
    {
      attempt := 0;
    }
  }

  // ---- Whole runs --------------------------------------------------------------------------

  /** What a caller does with a backoff: take a delay, given the raw draw, or reset it. */
  datatype Op = Delay(random: nat) | Reset

  /** Delays taken since the last reset, `before` of them before `ops` begin. */
  function Count(before: nat, ops: seq<Op>): nat {
    if ops == [] then before
    else if ops[|ops| - 1].Reset? then 0
    else Count(before, ops[..|ops| - 1]) + 1
  }

  /** Time waited since the last reset. */
  function Waited(ops: seq<Op>, waits: seq<Duration>): nat
    requires |waits| == |ops|
  {
    if ops == [] || ops[|ops| - 1].Reset? then 0
    else Waited(ops[..|ops| - 1], waits[..|ops| - 1]) + waits[|ops| - 1]
  }

  /** A delay taken after `k` others since the last reset. */
  ghost predicate DelayFits(base: Duration, max: Duration, k: nat, wait: int) {
    wait <= max && wait <= base * Pow(2, Min(k, 31))
  }

  /** The time `k` delays since the last reset took. */
  ghost predicate TotalFits(base: Duration, max: Duration, k: nat, waited: int) {
    waited <= k * max && waited <= base * (Pow(2, k) - 1)
  }

  /** The bounds on a run: every delay by itself, and at every moment the time since the last reset. */
  ghost predicate Bounded(base: Duration, max: Duration, before: nat, ops: seq<Op>, waits: seq<Duration>)
    requires |waits| == |ops|
  {
    && (forall i :: 0 <= i < |ops| ==> DelayFits(base, max, Count(before, ops[..i]), waits[i]))
    && (forall n :: 0 <= n <= |ops| ==> TotalFits(base, max, Count(before, ops[..n]), Waited(ops[..n], waits[..n])))
  }

  /**
   Any run of delays and resets, from any earlier use.  The attempt counter saturates and the ceiling
   stops doubling after 31 delays; the bounds do not.  A reset waits nothing.
   */
  method Perform(b: Backoff, ops: seq<Op>) returns (waits: seq<Duration>)
    requires b.Valid()
    modifies b`attempt
    ensures b.Valid() && b.attempt == Min(Count(old(b.attempt), ops), U32_MAX)
    ensures |waits| == |ops| && Bounded(b.base, b.max, old(b.attempt), ops, waits)
    ensures forall i :: 0 <= i < |ops| && ops[i].Reset? ==> waits[i] == 0
  {
    hide Pow, Bounded, Count;
    ghost var before := b.attempt;
    waits := [];
    BoundedEmpty(b.base, b.max, before);
    for n := 0 to |ops|
      invariant b.Valid() && b.attempt == Min(Count(before, ops[..n]), U32_MAX)
      invariant |waits| == n && Bounded(b.base, b.max, before, ops[..n], waits)
      invariant forall i :: 0 <= i < n && ops[i].Reset? ==> waits[i] == 0
    {
      assert ops[..n + 1] == ops[..n] + [ops[n]];
      CountStep(before, ops[..n], ops[n]);
      ghost var k := Count(before, ops[..n]);
      var wait: Duration := 0;
      match ops[n] {
        case Reset =>
          b.Reset();
        case Delay(random) =>
          CapIsMinimum(b.base, b.max, b.attempt);
          wait := b.NextDelay(random);
          SameMin(k);
      }
      BoundedStep(b.base, b.max, before, ops[..n], waits, ops[n], wait);
      waits := waits + [wait];
    }
    assert ops[..|ops|] == ops;
  }

  lemma CountStep(before: nat, ops: seq<Op>, op: Op)
    ensures Count(before, ops + [op]) == if op.Reset? then 0 else Count(before, ops) + 1
    ensures Count(before, []) == before
  {
    assert (ops + [op])[..|ops|] == ops;
  }

  /** Saturation is far beyond where the ceiling stops doubling. */
  lemma SameMin(k: nat)
    ensures Min(Min(k, U32_MAX), 31) == Min(k, 31)
  {
  }

  lemma BoundedEmpty(base: Duration, max: Duration, before: nat)
    ensures Count(before, []) == before && Bounded(base, max, before, [], [])
  {
    PowMonotone(2, 0, before);
    Product(base, Pow(2, before) - 1);
    Product(before, max);
  }

  lemma Product(x: nat, y: nat)
    ensures x * y >= 0
  {
  }

  lemma BoundedStep(base: Duration, max: Duration, before: nat, ops: seq<Op>, waits: seq<Duration>, op: Op,
                    wait: Duration)
    requires |waits| == |ops| && Bounded(base, max, before, ops, waits)
    requires DelayFits(base, max, Count(before, ops), wait)
    ensures Bounded(base, max, before, ops + [op], waits + [wait])
  {
    hide DelayFits, TotalFits, Count, Waited;
    var ops', waits' := ops + [op], waits + [wait];
    assert ops[..|ops|] == ops && waits[..|ops|] == waits && ops'[..|ops'|] == ops' && waits'[..|ops'|] == waits';
    forall i | 0 <= i <= |ops| ensures ops'[..i] == ops[..i] && waits'[..i] == waits[..i] {
    }
    forall i | 0 <= i < |ops'| ensures DelayFits(base, max, Count(before, ops'[..i]), waits'[i]) {
      assert i < |ops| ==> DelayFits(base, max, Count(before, ops[..i]), waits[i]);
    }
    WaitedStep(base, max, before, ops, waits, op, wait);
    forall n | 0 <= n <= |ops'| ensures TotalFits(base, max, Count(before, ops'[..n]), Waited(ops'[..n], waits'[..n])) {
      assert n <= |ops| ==> TotalFits(base, max, Count(before, ops[..n]), Waited(ops[..n], waits[..n]));
    }
  }

  lemma WaitedStep(base: Duration, max: Duration, before: nat, ops: seq<Op>, waits: seq<Duration>, op: Op,
                   wait: Duration)
    requires |waits| == |ops| && TotalFits(base, max, Count(before, ops), Waited(ops, waits))
    requires DelayFits(base, max, Count(before, ops), wait)
    ensures TotalFits(base, max, Count(before, ops + [op]), Waited(ops + [op], waits + [wait]))
  {
    hide Pow, Count, Waited, Min;
    CountStep(before, ops, op);
    PowOfZero();
    WaitedSnoc(ops, waits, op, wait);
    if !op.Reset? {
      OneMore(base, max, Count(before, ops), Waited(ops, waits), wait);
    }
  }

  lemma WaitedSnoc(ops: seq<Op>, waits: seq<Duration>, op: Op, wait: Duration)
    requires |waits| == |ops|
    ensures Waited(ops + [op], waits + [wait]) == if op.Reset? then 0 else Waited(ops, waits) + wait
  {
    assert (ops + [op])[..|ops|] == ops && (waits + [wait])[..|ops|] == waits;
  }

  /** One more delay, after `k` of them took `waited`, keeps both totals in bounds. */
  lemma OneMore(base: Duration, max: Duration, k: nat, waited: nat, wait: nat)
    requires TotalFits(base, max, k, waited) && DelayFits(base, max, k, wait)
    ensures TotalFits(base, max, k + 1, waited + wait)
  {
    hide Pow;
    PowMonotone(2, Min(k, 31), k);
    MulMonotone(Pow(2, Min(k, 31)), Pow(2, k), base);
    Doubling(base, k);
    MaxStep(k, max);
  }

  /** Along a run the ceiling never falls until the next reset. */
  lemma {:induction false} CapGrowsUntilReset(base: Duration, max: Duration, before: nat, ops: seq<Op>, i: nat, j: nat)
    requires i <= j <= |ops| && forall n :: i <= n < j ==> !ops[n].Reset?
    ensures CapAt(base, max, Min(Count(before, ops[..i]), U32_MAX))
            <= CapAt(base, max, Min(Count(before, ops[..j]), U32_MAX))
    decreases j
  {
    hide CapAt, Count;
    if i < j {
      CapGrowsUntilReset(base, max, before, ops, i, j - 1);
      assert ops[..j] == ops[..j - 1] + [ops[j - 1]];
      CountStep(before, ops[..j - 1], ops[j - 1]);
      var k := Count(before, ops[..j - 1]);
      CapMonotone(base, max, Min(k, U32_MAX), Min(k + 1, U32_MAX));
    }
  }

  lemma PowOfZero()
    ensures Pow(2, 0) == 1
  {
  }

  lemma MaxStep(n: nat, max: int)
    ensures (n + 1) * max == n * max + max
  {
  }

  lemma Doubling(base: nat, n: nat)
    ensures base * (Pow(2, n + 1) - 1) == base * (Pow(2, n) - 1) + base * Pow(2, n)
  {
    assert Pow(2, n + 1) - 1 == (Pow(2, n) - 1) + Pow(2, n);
  }
}
