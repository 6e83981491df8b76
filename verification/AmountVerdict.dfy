/**
 The arithmetic behind the parser's verdict: a literal with a non-zero digit is accepted exactly when
 its significant digits, scaled by the remaining power of ten, stay within 10^18 - 1.
 */
module AmountVerdict {
  import opened Numerals
  import opened Decimals
  import opened AmountSyntax

  /** The digits handed to `process_mantissa_digit`: a lone leading 0 is skipped. */
  function Fed(lit: Literal): string {
    if lit.whole == "0" then lit.fraction else lit.whole + lit.fraction
  }

  function Mantissa(lit: Literal): int {
    Decimal(Significant(Fed(lit)))
  }

  /** The power of ten left over once the deferred zeros are counted. */
  function Shift(lit: Literal, decimals: int): int {
    Scale(lit, decimals) + TrailingZeros(Fed(lit))
  }

  lemma FedDigits(lit: Literal)
    requires WellFormed(lit)
    ensures AllDigits(Fed(lit)) && Decimal(Fed(lit)) == Coefficient(lit)
    ensures |Fed(lit)| <= |lit.whole| + |lit.fraction|
  {
    hide Decimal, Pow;
    if lit.whole == "0" {
      DecimalConcat("0", lit.fraction);
      assert "0" == "" + ['0'];
      DecimalSnoc("", '0');
      EmptyDecimal();
    }
  }

  /** The digits fed in factor as significant digits times the deferred power of ten. */
  lemma CoefficientFactors(lit: Literal)
    requires WellFormed(lit)
    ensures Mantissa(lit) >= 0 && Coefficient(lit) == Mantissa(lit) * Pow(10, TrailingZeros(Fed(lit)))
    ensures Coefficient(lit) == 0 <==> Mantissa(lit) == 0
    ensures Coefficient(lit) == 0 ==> Significant(Fed(lit)) == ""
    ensures Coefficient(lit) != 0 ==> Mantissa(lit) % 10 != 0
  {
    hide Decimal, Pow, Significant;
    var ds := Fed(lit);
    FedDigits(lit);
    TrailingZerosScale(ds);
    SignificantNotTen(ds);
    SignificantGrows(ds, "");
    EmptyDecimal();
    MulCancels(Mantissa(lit), 0, Pow(10, TrailingZeros(ds)));
    if Significant(ds) == "" {
      assert Coefficient(lit) == 0;
    }
  }

  /** Removing a common power of ten does not change what a product equals. */
  lemma ScaledSplit(m: int, t: nat, e: int, n: int)
    requires m % 10 != 0
    ensures ScaledEquals(m * Pow(10, t), e, n) <==> e + t >= 0 && m * Pow(10, e + t) == n
  {
    hide Pow;
    if e >= 0 {
      PowAdd(10, t, e);
      MulAssociates(m, Pow(10, t), Pow(10, e));
    } else if e + t >= 0 {
      var k := -e;
      PowAdd(10, t - k, k);
      MulAssociates(m, Pow(10, t - k), Pow(10, k));
      MulCancels(m * Pow(10, t - k), n, Pow(10, k));
    } else {
      var k := -e - t;
      PowAdd(10, k, t);
      MulAssociates(n, Pow(10, k), Pow(10, t));
      MulCancels(m, n * Pow(10, k), Pow(10, t));
      PowTenDivides(k, n);
    }
  }

  lemma PowTenDivides(k: nat, n: int)
    requires k > 0
    ensures (n * Pow(10, k)) % 10 == 0
  {
    MulAssociates(n, Pow(10, k - 1), 10);
    DivMod(n * Pow(10, k - 1), 0, 10);
    assert n * Pow(10, k) == n * (Pow(10, k - 1) * 10);
  }

  /** Acceptance in terms of the significant digits only. */
  lemma AcceptsNonZero(lit: Literal, decimals: int, n: int)
    requires WellFormed(lit) && Coefficient(lit) != 0
    ensures Accepts(lit, decimals, n) <==>
              && Shift(lit, decimals) >= 0
              && Mantissa(lit) * Pow(10, Shift(lit, decimals)) <= UPPER_BOUND
              && n == Signed(lit.negative, Mantissa(lit)) * Pow(10, Shift(lit, decimals))
  {
    hide Decimal, Pow, Significant, ScaledEquals, Scale;
    var m, t, e := Mantissa(lit), TrailingZeros(Fed(lit)), Scale(lit, decimals);
    CoefficientFactors(lit);
    var sm := Signed(lit.negative, m);
    assert Signed(lit.negative, Coefficient(lit)) == sm * Pow(10, t) by {
      SignedProduct(lit.negative, m, Pow(10, t));
    }
    assert sm % 10 != 0 by {
      NegateMod(m);
    }
    ScaledSplit(sm, t, e, n);
    if e + t >= 0 {
      SignedProduct(lit.negative, m, Pow(10, e + t));
      MulMonotone(0, m, Pow(10, e + t));
    }
  }

  lemma SignedProduct(negative: bool, m: int, p: int)
    ensures Signed(negative, m * p) == Signed(negative, m) * p
  {
  }

  lemma NegateMod(m: int)
    requires m % 10 != 0
    ensures (-m) % 10 != 0
  {
  }

  /** A non-zero mantissa shifted by 18 places or more is out of range. */
  lemma ShiftTooFar(lit: Literal, decimals: int)
    requires WellFormed(lit) && Coefficient(lit) != 0 && Shift(lit, decimals) >= 18
    ensures Mantissa(lit) * Pow(10, Shift(lit, decimals)) > UPPER_BOUND
  {
    hide Decimal, Pow, Significant, Scale;
    CoefficientFactors(lit);
    var p := Pow(10, Shift(lit, decimals));
    PowMonotone(10, 18, Shift(lit, decimals));
    PowTenEighteen();
    MulMonotone(1, Mantissa(lit), p);
  }

  lemma PowTenEighteen()
    ensures Pow(10, 18) == UPPER_BOUND + 1
  {
    assert Pow(10, 6) == 1_000_000;
    PowAdd(10, 6, 6);
    PowAdd(10, 6, 12);
  }

  /** Too many significant digits: no scale brings the value into range. */
  lemma MantissaTooBig(lit: Literal, decimals: int, n: int)
    requires WellFormed(lit) && Mantissa(lit) > UPPER_BOUND
    ensures !Accepts(lit, decimals, n)
  {
    hide Decimal, Significant, Scale, Pow, Accepts;
    CoefficientFactors(lit);
    AcceptsNonZero(lit, decimals, n);
    if Shift(lit, decimals) >= 0 {
      MulGrows(Mantissa(lit), Pow(10, Shift(lit, decimals)));
    }
  }

  /** Longest text for which an exponent of 10^18 or more always decides the verdict. */
  const TEXT_LIMIT: int := UPPER_BOUND - 100

  /** An exponent of 10^18 or more puts any literal out of range on one side or the other. */
  lemma ExponentTooBig(lit: Literal, decimals: int, n: int)
    requires WellFormed(lit) && 0 <= decimals <= 18 && |LiteralText(lit)| <= TEXT_LIMIT
    requires lit.exponent.Exponent? && Decimal(lit.exponent.digits) > UPPER_BOUND
    ensures !Accepts(lit, decimals, n)
  {
    hide Decimal, Significant, Pow, AllDigits;
    FedDigits(lit);
    assert |lit.whole| + |lit.fraction| <= TEXT_LIMIT;
    if Coefficient(lit) != 0 {
      AcceptsNonZero(lit, decimals, n);
      if Shift(lit, decimals) >= 18 {
        ShiftTooFar(lit, decimals);
      }
    }
  }
}
