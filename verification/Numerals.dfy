/**
 Positional notation: powers, the value of a digit sequence (most significant digit first) in a
 given base, and the sequence of a given length that has a given value.  Amounts (base 10), shard
 directory names (base 10) and bech32m payloads (bases 256 and 32) all rest on these.
 */
module Numerals {

  function Pow(b: nat, e: nat): (p: nat)
    ensures b > 0 ==> p > 0
  {
    if e == 0 then 1 else b * Pow(b, e - 1)
  }

  lemma {:induction false} PowAdd(b: nat, m: nat, n: nat)
    ensures Pow(b, m + n) == Pow(b, m) * Pow(b, n)
  {
    if m == 0 {
    } else {
      PowAdd(b, m - 1, n);
      assert m + n != 0 && m + n - 1 == (m - 1) + n;
      MulAssociates(b, Pow(b, m - 1), Pow(b, n));
    }
  }

  lemma {:induction false} PowMonotone(b: nat, m: nat, n: nat)
    requires b > 0 && m <= n
    ensures Pow(b, m) <= Pow(b, n)
  {
    PowAdd(b, m, n - m);
    MulGrows(Pow(b, m), Pow(b, n - m));
  }

  lemma MulAssociates(x: int, y: int, z: int)
    ensures x * (y * z) == x * y * z
  {
  }

  lemma MulGrows(x: nat, y: nat)
    requires y > 0
    ensures x <= x * y
  {
  }

  lemma MulMonotone(x: int, y: int, k: nat)
    requires x <= y
    ensures x * k <= y * k
  {
    assert 0 <= (y - x) * k;
  }

  lemma MulStrict(x: nat, y: nat, k: nat)
    requires x < y && k > 0
    ensures 0 <= x * k < y * k
  {
    MulMonotone(x + 1, y, k);
    assert (x + 1) * k == x * k + k;
  }

  /** Scaling by a positive factor neither creates nor destroys an inequality. */
  lemma MulCancels(x: int, y: int, k: nat)
    requires k > 0
    ensures x * k == y * k <==> x == y
    ensures x * k <= y * k <==> x <= y
  {
    if x < y {
      MulMonotone(x + 1, y, k);
      assert (x + 1) * k == x * k + k;
    } else {
      MulMonotone(y, x, k);
      if x > y {
        MulMonotone(y + 1, x, k);
        assert (y + 1) * k == y * k + k;
      }
    }
  }

  lemma Euclid(n: int, d: nat)
    requires d > 0
    ensures n == n / d * d + n % d && 0 <= n % d < d
  {
  }

  /** Quotient and remainder are determined by their defining equation. */
  lemma DivMod(q: int, r: int, d: nat)
    requires 0 <= r < d
    ensures (q * d + r) / d == q && (q * d + r) % d == r
  {
    var n := q * d + r;
    var q' := n / d;
    assert n == q' * d + n % d;
    assert q' * d < (q + 1) * d && q * d < (q' + 1) * d;
    MulCancels(q + 1, q', d);
    MulCancels(q' + 1, q, d);
  }

  /** Dividing by a product is dividing twice. */
  lemma DivDiv(x: nat, a: nat, b: nat)
    requires a > 0 && b > 0
    ensures a * b > 0 && x / (a * b) == x / a / b
  {
    var q, r := x / a, x % a;
    var q', r' := q / b, q % b;
    assert x == q * a + r && q == q' * b + r';
    assert q * a == q' * b * a + r' * a;
    Regroup(q', b, a);
    MulMonotone(r', b - 1, a);
    assert (b - 1) * a == b * a - a;
    DivMod(q', r' * a + r, a * b);
  }

  lemma Regroup(x: int, y: int, z: int)
    ensures x * y * z == x * (z * y)
  {
  }

  lemma Distribute(x: int, y: int, z: int, k: int)
    ensures (x * y + z) * k == x * (k * y) + z * k
  {
    Regroup(x, y, k);
  }

  lemma Horner(x: int, y: int, z: int, k: int, ky: int)
    requires ky == k * y
    ensures (x * y + z) * k == x * ky + z * k
  {
    Distribute(x, y, z, k);
  }

  ghost predicate InBase(ds: seq<int>, base: nat) {
    forall i :: 0 <= i < |ds| ==> 0 <= ds[i] < base
  }

  function Value(ds: seq<int>, base: nat): int {
    if ds == [] then 0 else Value(ds[..|ds| - 1], base) * base + ds[|ds| - 1]
  }

  lemma ValueSnoc(ds: seq<int>, d: int, base: nat)
    ensures Value(ds + [d], base) == Value(ds, base) * base + d
  {
    assert (ds + [d])[..|ds|] == ds;
  }

  lemma {:induction false} ValueBound(ds: seq<int>, base: nat)
    requires InBase(ds, base)
    ensures 0 <= Value(ds, base) < Pow(base, |ds|)
  {
    if ds != [] {
      var init := ds[..|ds| - 1];
      ValueBound(init, base);
      MulMonotone(Value(init, base) + 1, Pow(base, |init|), base);
      assert (Value(init, base) + 1) * base == Value(init, base) * base + base;
    }
  }

  lemma {:induction false} ValueConcat(xs: seq<int>, ys: seq<int>, base: nat)
    ensures Value(xs + ys, base) == Value(xs, base) * Pow(base, |ys|) + Value(ys, base)
  {
    if ys == [] {
      assert xs + ys == xs;
    } else {
      hide Value;
      var init, d := ys[..|ys| - 1], ys[|ys| - 1];
      ValueConcat(xs, init, base);
      assert xs + ys == (xs + init) + [d] && ys == init + [d];
      ValueSnoc(xs + init, d, base);
      ValueSnoc(init, d, base);
      Horner(Value(xs, base), Pow(base, |init|), Value(init, base), base, Pow(base, |ys|));
    }
  }

  /** A number has at most one numeral of a given length. */
  lemma {:induction false} ValueUnique(xs: seq<int>, ys: seq<int>, base: nat)
    requires InBase(xs, base) && InBase(ys, base)
    requires |xs| == |ys| && Value(xs, base) == Value(ys, base)
    ensures xs == ys
  {
    if xs != [] {
      var n := |xs| - 1;
      DivMod(Value(xs[..n], base), xs[n], base);
      DivMod(Value(ys[..n], base), ys[n], base);
      ValueUnique(xs[..n], ys[..n], base);
      assert xs == xs[..n] + [xs[n]] && ys == ys[..n] + [ys[n]];
    }
  }

  /** The last `len` digits of `n`. */
  function Numeral(n: int, base: nat, len: nat): seq<int>
    requires base > 0
    decreases len
  {
    if len == 0 then [] else Numeral(n / base, base, len - 1) + [n % base]
  }

  lemma {:induction false} NumeralValue(n: int, base: nat, len: nat)
    requires base > 0 && 0 <= n < Pow(base, len)
    ensures |Numeral(n, base, len)| == len && InBase(Numeral(n, base, len), base)
    ensures Value(Numeral(n, base, len), base) == n
    decreases len
  {
    if len > 0 {
      NumeralStep(n, base, len);
      NumeralValue(n / base, base, len - 1);
      ValueSnoc(Numeral(n / base, base, len - 1), n % base, base);
    }
  }

  lemma NumeralStep(n: int, base: nat, len: nat)
    requires base > 0 && len > 0 && 0 <= n < Pow(base, len)
    ensures 0 <= n / base < Pow(base, len - 1)
    ensures n == n / base * base + n % base && 0 <= n % base < base
  {
    var q, r := n / base, n % base;
    var p := Pow(base, len - 1);
    assert n == q * base + r;
    assert q * base <= n < p * base && 0 < (q + 1) * base;
    MulCancels(p, q, base);
    MulCancels(q + 1, 0, base);
  }
}
