/**
 `parse_fixed_point` and `process_mantissa_digit` as the source runs them, on 64-bit integers:
 `i64` is a subset type, so every assignment below is also a proof that nothing overflows.
 */
module AmountParser {
  import opened Wrappers
  import opened Numerals
  import opened Decimals
  import opened AmountSyntax
  import opened AmountVerdict

  type i64 = x: int | -0x8000_0000_0000_0000 <= x < 0x8000_0000_0000_0000

  const MULTIPLY_LIMIT: int := 99_999_999_999_999_999 // UPPER_BOUND / 10

  /** The deferred-zero state stands for the digits `fed`: naive value = mantissa * 10^tzeros. */
  ghost predicate Holds(fed: string, mantissa: int, tzeros: int) {
    && AllDigits(fed)
    && mantissa == Decimal(Significant(fed)) && 0 <= mantissa <= UPPER_BOUND
    && tzeros == TrailingZeros(fed)
  }

  /**
   Fold one digit.  `ok` exactly when the digits up to the last non-zero one stay below 10^18, and
   the flushed multiplications plus the zeros still deferred are the zeros deferred before plus
   one, so over a whole literal no more multiplications happen than digits are read.
   */
  method ProcessMantissaDigit(ch: char, mantissa: i64, tzeros: i64, ghost fed: string)
    returns (ok: bool, mantissa': i64, tzeros': i64, ghost flushes: nat)
    requires IsDigit(ch) && Holds(fed, mantissa, tzeros) && |fed| <= TEXT_LIMIT
    ensures ok <==> Decimal(Significant(fed + [ch])) <= UPPER_BOUND
    ensures ok ==> Holds(fed + [ch], mantissa', tzeros') && flushes + tzeros' == tzeros + 1
    ensures !ok ==> flushes <= tzeros
  {
    hide Decimal, Significant, Shifted, IsDigit;
    mantissa', tzeros', flushes := mantissa, tzeros, 0;
    SignificantSnoc(fed, ch);
    assert AllDigits(fed + [ch]);
    if ch == '0' {
      tzeros' := tzeros' + 1;
      return true, mantissa', tzeros', flushes;
    }
    AppendedValue(fed, ch);
    var i := 0;
    ShiftedSteps(mantissa, 0);
    while i <= tzeros
      invariant 0 <= i <= tzeros + 1 && flushes == i
      invariant mantissa' == Shifted(mantissa, i) && 0 <= mantissa' <= UPPER_BOUND
      invariant i > 0 ==> mantissa' <= UPPER_BOUND - 9
    {
      ShiftedSteps(mantissa, i);
      if mantissa' > MULTIPLY_LIMIT {
        ShiftedGrows(mantissa, i + 1, tzeros + 1);
        return false, mantissa', tzeros', flushes;
      }
      mantissa' := mantissa' * 10;
      i, flushes := i + 1, flushes + 1;
    }
    mantissa' := mantissa' + DigitValue(ch);
    tzeros' := 0;
    SignificantEnds(fed + [ch]);
    ok := true;
  }

  /** m * 10^i */
  ghost function Shifted(m: int, i: nat): int {
    m * Pow(10, i)
  }

  lemma ShiftedSteps(m: int, i: nat)
    ensures Shifted(m, 0) == m && Shifted(m, i + 1) == Shifted(m, i) * 10
  {
    Regroup(m, Pow(10, i), 10);
  }

  lemma ShiftedGrows(m: nat, i: nat, j: nat)
    requires i <= j
    ensures Shifted(m, i) <= Shifted(m, j)
  {
    PowMonotone(10, i, j);
    MulMonotone(Pow(10, i), Pow(10, j), m);
  }

  lemma SignificantEnds(s: string)
    ensures s != "" && s[|s| - 1] != '0' ==> Significant(s) == s
  {
  }

  /** Appending a non-zero digit flushes the deferred zeros. */
  lemma AppendedValue(fed: string, ch: char)
    requires AllDigits(fed) && IsDigit(ch) && ch != '0'
    ensures Decimal(fed + [ch]) ==
            Shifted(Decimal(Significant(fed)), TrailingZeros(fed) + 1) + DigitValue(ch)
    ensures 0 < DigitValue(ch) < 10
  {
    hide Decimal, Pow, Significant;
    DecimalSnoc(fed, ch);
    TrailingZerosScale(fed);
    ShiftedSteps(Decimal(Significant(fed)), TrailingZeros(fed));
  }

  /** Either mantissa loop: consume the leading digits of `rest`. */
  method ScanMantissa(rest: string, mantissa: i64, tzeros: i64, ghost fed: string)
    returns (ok: bool, k: nat, mantissa': i64, tzeros': i64, ghost flushes: nat)
    requires Holds(fed, mantissa, tzeros) && |fed| + |rest| <= TEXT_LIMIT
    ensures k <= |rest| && (ok ==> k == DigitRun(rest))
    ensures ok ==> Holds(fed + rest[..k], mantissa', tzeros') && flushes + tzeros' == tzeros + k
    ensures ok <==> Decimal(Significant(fed + rest[..DigitRun(rest)])) <= UPPER_BOUND
    ensures flushes <= tzeros + k
  {
    hide Decimal, Significant;
    ghost var run := DigitRun(rest);
    k, mantissa', tzeros', flushes := 0, mantissa, tzeros, 0;
    assert fed + rest[..0] == fed;
    while k < |rest| && IsDigit(rest[k])
      invariant k <= run
      invariant Holds(fed + rest[..k], mantissa', tzeros')
      invariant flushes + tzeros' == tzeros + k
    {
      DigitRunBeyond(rest, k);
      ghost var work;
      ghost var before := fed + rest[..k];
      ok, mantissa', tzeros', work := ProcessMantissaDigit(rest[k], mantissa', tzeros', before);
      flushes := flushes + work;
      assert before + [rest[k]] == fed + rest[..k + 1];
      if !ok {
        assert fed + rest[..run] == before + [rest[k]] + rest[k + 1..run];
        AllDigitsOf(fed, rest);
        SignificantGrows(before + [rest[k]], rest[k + 1..run]);
        return;
      }
      k := k + 1;
    }
    DigitRunEnds(rest, k);
    ok := true;
  }

  lemma AllDigitsOf(fed: string, rest: string)
    requires AllDigits(fed)
    ensures AllDigits(fed + rest[..DigitRun(rest)])
  {
  }

  lemma {:induction false} DigitRunBeyond(s: string, k: nat)
    requires k <= DigitRun(s) && k < |s| && IsDigit(s[k])
    ensures k < DigitRun(s)
  {
  }

  lemma {:induction false} DigitRunEnds(s: string, k: nat)
    requires k <= DigitRun(s) && (k < |s| ==> !IsDigit(s[k]))
    ensures k == DigitRun(s)
  {
    if k > 0 {
      DigitRunEnds(s[1..], k - 1);
    }
  }

  /** The exponent loop. */
  method ScanExponentDigits(rest: string) returns (ok: bool, k: nat, exponent: i64)
    ensures ok ==> k == DigitRun(rest) && exponent == Decimal(rest[..k]) && 0 <= exponent <= UPPER_BOUND
    ensures ok <==> Decimal(rest[..DigitRun(rest)]) <= UPPER_BOUND
  {
    hide Decimal;
    ghost var run := DigitRun(rest);
    k, exponent := 0, 0;
    assert rest[..0] == "";
    EmptyDecimal();
    while k < |rest| && IsDigit(rest[k])
      invariant k <= run
      invariant exponent == Decimal(rest[..k]) && 0 <= exponent <= UPPER_BOUND
    {
      DigitRunBeyond(rest, k);
      assert rest[..k + 1] == rest[..k] + [rest[k]];
      DecimalSnoc(rest[..k], rest[k]);
      if exponent > MULTIPLY_LIMIT {
        assert rest[..run] == rest[..k + 1] + rest[k + 1..run];
        DecimalGrows(rest[..k + 1], rest[k + 1..run]);
        ok := false;
        return;
      }
      exponent := exponent * 10 + DigitValue(rest[k]);
      k := k + 1;
    }
    DigitRunEnds(rest, k);
    ok := true;
  }

  /** The final loop: bring the mantissa to a single fixed-point value. */
  method Rescale(mantissa: i64, exponent: i64) returns (r: Option<i64>)
    requires Abs(mantissa) <= UPPER_BOUND && 0 <= exponent < 18
    ensures r.Some? <==> Shifted(Abs(mantissa), exponent) <= UPPER_BOUND
    ensures r.Some? ==> r.value == Shifted(mantissa, exponent)
  {
    hide Shifted;
    var m: i64 := mantissa;
    ShiftedSteps(mantissa, 0);
    ShiftedSteps(Abs(mantissa), 0);
    var i := 0;
    while i < exponent
      invariant 0 <= i <= exponent
      invariant m == Shifted(mantissa, i) && Abs(m) == Shifted(Abs(mantissa), i) <= UPPER_BOUND
    {
      ShiftedSteps(mantissa, i);
      ShiftedSteps(Abs(mantissa), i);
      if !(-MULTIPLY_LIMIT <= m <= MULTIPLY_LIMIT) {
        ShiftedGrows(Abs(mantissa), i + 1, exponent);
        return None;
      }
      m := m * 10;
      i := i + 1;
    }
    r := if -UPPER_BOUND <= m <= UPPER_BOUND then Some(m) else None;
  }

  // ---- Sign, integer part and fraction -----------------------------------------------------

  /** A literal up to its exponent, and the text after it. */
  datatype Head = Head(negative: bool, whole: string, fraction: string, rest: string)

  /** The fraction digits of a text whose fraction part is well formed. */
  ghost function FractionOf(s: string): string {
    if FractionRun(s) <= 0 then "" else s[1..FractionRun(s)]
  }

  ghost function ScanHead(s: string): Option<Head> {
    var body := Unsigned(s);
    var w := WholeRun(body);
    var tail := body[w..];
    var f := FractionRun(tail);
    if w == 0 || f < 0 then None
    else Some(Head(IsNegative(s), body[..w], FractionOf(tail), tail[f..]))
  }

  lemma ScanByHead(s: string)
    ensures Scan(s) ==
            if ScanHead(s).None? || ScanExponent(ScanHead(s).value.rest).None? then None
            else
              var h := ScanHead(s).value;
              Some(Literal(h.negative, h.whole, h.fraction, ScanExponent(h.rest).value))
    ensures Scan(s).Some? ==> Fed(Scan(s).value) == HeadFed(ScanHead(s).value)
  {
    if ScanHead(s).Some? {
      var fraction := ScanHead(s).value.fraction;
      assert "" + fraction == fraction;
    }
  }

  ghost function WholeFed(whole: string): string {
    if whole == "0" then "" else whole
  }

  ghost function HeadFed(h: Head): string {
    WholeFed(h.whole) + h.fraction
  }

  method ReadWhole(body: string) returns (ok: bool, mantissa: i64, tzeros: i64, rest: string, ghost flushes: nat)
    requires |body| <= TEXT_LIMIT
    ensures ok ==> WholeRun(body) > 0 && rest == body[WholeRun(body)..]
    ensures ok ==> Holds(WholeFed(body[..WholeRun(body)]), mantissa, tzeros)
    ensures ok ==> flushes + tzeros == |WholeFed(body[..WholeRun(body)])|
    ensures !ok && WholeRun(body) > 0 ==>
              body[..WholeRun(body)] != "0" && Decimal(Significant(body[..WholeRun(body)])) > UPPER_BOUND
    ensures !ok ==> flushes <= |body|
  {
    hide Decimal, Significant, DigitRun, Holds;
    HoldsNothing();
    NoDigitNoRun(body);
    ok, rest, mantissa, tzeros, flushes := true, body, 0, 0, 0;
    if rest == "" || !IsDigit(rest[0]) {
      ok := false;
      return;
    }
    if rest[0] == '0' {
      rest := rest[1..];
    } else {
      var k;
      ok, k, mantissa, tzeros, flushes := ScanMantissa(rest, mantissa, tzeros, "");
      assert "" + body[..WholeRun(body)] == body[..WholeRun(body)];
      rest := rest[k..];
    }
  }

  method ReadFraction(tail: string, mantissa: i64, tzeros: i64, ghost fed: string)
    returns (ok: bool, mantissa': i64, tzeros': i64, pointOfs: i64, rest: string, ghost flushes: nat)
    requires |fed| + |tail| <= TEXT_LIMIT && Holds(fed, mantissa, tzeros)
    ensures ok ==> FractionRun(tail) >= 0 && rest == tail[FractionRun(tail)..]
    ensures ok ==> Holds(fed + FractionOf(tail), mantissa', tzeros') && pointOfs == |FractionOf(tail)|
    ensures !ok && FractionRun(tail) >= 0 ==> Decimal(Significant(fed + FractionOf(tail))) > UPPER_BOUND
    ensures flushes <= tzeros + |tail|
  {
    hide Decimal, Significant, DigitRun, Holds;
    ok, rest, mantissa', tzeros', pointOfs, flushes := true, tail, mantissa, tzeros, 0, 0;
    HoldsBounds(fed, mantissa, tzeros);
    if rest != "" && rest[0] == '.' {
      rest := rest[1..];
      NoDigitNoRun(rest);
      if rest == "" || !IsDigit(rest[0]) {
        ok := false;
        return;
      }
      var k;
      ok, k, mantissa', tzeros', flushes := ScanMantissa(rest, mantissa, tzeros, fed);
      assert rest[..DigitRun(rest)] == FractionOf(tail);
      if !ok {
        return;
      }
      pointOfs := k;
      rest := rest[k..];
      assert rest == tail[FractionRun(tail)..];
    } else {
      assert rest == tail[0..] && fed + "" == fed;
    }
  }

  /** Sign, integer part and fraction; over all of it there are at most |val| multiplications. */
  method ReadHead(val: string)
    returns (ok: bool, negative: bool, mantissa: i64, tzeros: i64, pointOfs: i64, rest: string, ghost flushes: nat)
    requires |val| <= TEXT_LIMIT
    ensures ok ==> ScanHead(val).Some?
    ensures ok ==> var h := ScanHead(val).value;
                   && negative == h.negative && pointOfs == |h.fraction| && rest == h.rest
                   && Holds(HeadFed(h), mantissa, tzeros)
    ensures !ok && ScanHead(val).Some? ==> Decimal(Significant(HeadFed(ScanHead(val).value))) > UPPER_BOUND
    ensures flushes <= |val|
  {
    hide Decimal, Significant, WholeRun, FractionRun, FractionOf, Holds;
    negative := IsNegative(val);
    var body := if negative then val[1..] else val;
    pointOfs := 0;
    ok, mantissa, tzeros, rest, flushes := ReadWhole(body);
    if !ok {
      WholeOverflows(val);
      return;
    }
    ghost var work;
    ghost var fed := WholeFed(body[..WholeRun(body)]);
    ok, mantissa, tzeros, pointOfs, rest, work := ReadFraction(rest, mantissa, tzeros, fed);
    flushes := flushes + work;
  }

  lemma HoldsBounds(fed: string, mantissa: int, tzeros: int)
    requires Holds(fed, mantissa, tzeros)
    ensures 0 <= tzeros <= |fed|
  {
  }

  lemma HoldsNothing()
    ensures Holds("", 0, 0)
  {
    EmptyDecimal();
  }

  lemma NoDigitNoRun(s: string)
    ensures DigitRun(s) == 0 <==> s == "" || !IsDigit(s[0])
    ensures s == "" || !IsDigit(s[0]) ==> WholeRun(s) == 0
  {
  }

  lemma WholeOverflows(val: string)
    requires ScanHead(val).Some? ==> Decimal(Significant(ScanHead(val).value.whole)) > UPPER_BOUND
    requires ScanHead(val).Some? ==> ScanHead(val).value.whole != "0"
    ensures ScanHead(val).Some? ==> Decimal(Significant(HeadFed(ScanHead(val).value))) > UPPER_BOUND
  {
    hide Decimal, Significant, WholeRun, FractionRun;
    if ScanHead(val).Some? {
      var h := ScanHead(val).value;
      var body := Unsigned(val);
      WholeRunSound(body);
      FractionRunSound(body[WholeRun(body)..]);
      SignificantGrows(h.whole, h.fraction);
    }
  }

  // ---- Exponent ----------------------------------------------------------------------------

  method ReadExponent(val: string) returns (ok: bool, exponent: i64)
    ensures ok ==> ScanExponent(val).Some? && exponent == WrittenExponent(ScanExponent(val).value)
    ensures ok ==> Abs(exponent) <= UPPER_BOUND
    ensures !ok && ScanExponent(val).Some? ==>
              ScanExponent(val).value.Exponent? && Decimal(ScanExponent(val).value.digits) > UPPER_BOUND
  {
    hide Decimal, DigitRun, IsDigit;
    var rest, exponentSign := val, false;
    exponent, ok := 0, true;
    if rest != "" && (rest[0] == 'e' || rest[0] == 'E') {
      rest := rest[1..];
      ghost var t := rest;
      if rest != "" && rest[0] == '+' {
        rest := rest[1..];
      } else if rest != "" && rest[0] == '-' {
        exponentSign := true;
        rest := rest[1..];
      }
      ghost var digits := t[SignRun(t)..];
      assert rest == digits && (t[..SignRun(t)] == "-" <==> exponentSign);
      assert digits[..|digits|] == digits;
      NoDigitNoRun(rest);
      if rest == "" || !IsDigit(rest[0]) {
        return false, 0;
      }
      var k;
      ok, k, exponent := ScanExponentDigits(rest);
      if !ok {
        return;
      }
      rest := rest[k..];
    }
    if rest != "" {
      return false, 0;
    }
    if exponentSign {
      exponent := -exponent;
    }
  }

  // ---- The whole parser --------------------------------------------------------------------

  /** What the final test and loop decide, given the scanned literal. */
  lemma FinalVerdict(lit: Literal, decimals: int, n: int)
    requires WellFormed(lit)
    ensures var e := Shift(lit, decimals);
            Accepts(lit, decimals, n) <==>
            0 <= e < 18 && Shifted(Mantissa(lit), e) <= UPPER_BOUND
            && n == Shifted(Signed(lit.negative, Mantissa(lit)), e)
  {
    hide Decimal, Significant, Pow;
    CoefficientFactors(lit);
    if Coefficient(lit) == 0 {
      FedLength(lit);
    } else {
      AcceptsNonZero(lit, decimals, n);
      if Shift(lit, decimals) >= 18 {
        ShiftTooFar(lit, decimals);
      }
    }
  }

  /** With no non-zero digit the deferred zeros are exactly the fraction. */
  lemma FedLength(lit: Literal)
    requires WellFormed(lit) && Coefficient(lit) == 0
    ensures TrailingZeros(Fed(lit)) == |lit.fraction|
  {
    hide Decimal, Significant;
    CoefficientFactors(lit);
    if lit.whole != "0" {
      LeadingDigitCounts(lit);
    }
  }

  lemma LeadingDigitCounts(lit: Literal)
    requires WellFormed(lit) && lit.whole != "0"
    ensures Significant(lit.whole + lit.fraction) != ""
  {
    var ds := lit.whole + lit.fraction;
    assert ds[0] == lit.whole[0] != '0';
    SignificantKeeps(ds);
  }

  lemma {:induction false} SignificantKeeps(s: string)
    requires s != "" && s[0] != '0'
    ensures Significant(s) != ""
  {
    if s[|s| - 1] == '0' {
      SignificantKeeps(s[..|s| - 1]);
    }
  }

  ghost predicate Rejected(val: string, decimals: int) {
    forall n :: !Denotes(val, decimals, n)
  }

  lemma LiteralRejected(val: string, decimals: int)
    requires |val| <= TEXT_LIMIT && 0 <= decimals <= 18
    requires Scan(val).Some? ==>
               var lit := Scan(val).value;
               Mantissa(lit) > UPPER_BOUND || (lit.exponent.Exponent? && Decimal(lit.exponent.digits) > UPPER_BOUND)
    ensures Rejected(val, decimals)
  {
    hide Denotes, Scan, Accepts, Mantissa, Decimal, WellFormed, LiteralText;
    forall n ensures !Denotes(val, decimals, n) {
      DenotesScan(val, decimals, n);
      if Scan(val).Some? {
        var lit := Scan(val).value;
        ScanExact(val, lit);
        if Mantissa(lit) > UPPER_BOUND {
          MantissaTooBig(lit, decimals, n);
        } else {
          ExponentTooBig(lit, decimals, n);
        }
      }
    }
  }

  lemma HeadRejected(val: string, decimals: int)
    requires |val| <= TEXT_LIMIT && 0 <= decimals <= 18
    requires ScanHead(val).Some? ==> Decimal(Significant(HeadFed(ScanHead(val).value))) > UPPER_BOUND
    ensures Rejected(val, decimals)
  {
    hide ScanHead, Decimal, Significant, Rejected, ScanExponent, Scan;
    ScanByHead(val);
    LiteralRejected(val, decimals);
  }

  lemma ExponentRejected(val: string, decimals: int)
    requires |val| <= TEXT_LIMIT && 0 <= decimals <= 18 && ScanHead(val).Some?
    requires var e := ScanExponent(ScanHead(val).value.rest);
             e.Some? ==> e.value.Exponent? && Decimal(e.value.digits) > UPPER_BOUND
    ensures Rejected(val, decimals)
  {
    hide ScanHead, Decimal, Significant, Rejected, ScanExponent, Scan;
    ScanByHead(val);
    LiteralRejected(val, decimals);
  }

  /** The number a scanned text denotes, in the parser's own variables. */
  lemma Decided(val: string, decimals: int, mantissa: int, tzeros: int)
    requires ScanHead(val).Some? && ScanExponent(ScanHead(val).value.rest).Some?
    requires Holds(HeadFed(ScanHead(val).value), mantissa, tzeros)
    ensures var h := ScanHead(val).value;
            var e := WrittenExponent(ScanExponent(h.rest).value) - |h.fraction| + tzeros + decimals;
            forall n :: Denotes(val, decimals, n) <==>
              0 <= e < 18 && Shifted(mantissa, e) <= UPPER_BOUND && n == Shifted(Signed(h.negative, mantissa), e)
    ensures 0 <= mantissa <= UPPER_BOUND && 0 <= tzeros <= |val| && |ScanHead(val).value.fraction| <= |val|
  {
    hide ScanHead, Decimal, Significant, ScanExponent, Scan, Denotes, Accepts, WellFormed, Shifted;
    ScanByHead(val);
    HeadFits(val);
    var lit := Scan(val).value;
    ScanExact(val, lit);
    forall n
      ensures Denotes(val, decimals, n) <==> Accepts(lit, decimals, n)
    {
      DenotesScan(val, decimals, n);
    }
    forall n
      ensures var e := Shift(lit, decimals);
              Accepts(lit, decimals, n) <==>
              0 <= e < 18 && Shifted(Mantissa(lit), e) <= UPPER_BOUND
              && n == Shifted(Signed(lit.negative, Mantissa(lit)), e)
    {
      FinalVerdict(lit, decimals, n);
    }
  }

  lemma HeadFits(val: string)
    requires ScanHead(val).Some?
    ensures |HeadFed(ScanHead(val).value)| <= |val| && |ScanHead(val).value.fraction| <= |val|
  {
  }

  /**
   The parser accepts exactly the texts that denote a representable number, and returns it.
   Texts of up to `TEXT_LIMIT` characters are covered; a longer one does not fit in memory.
   */
  method ParseFixedPoint(val: string, decimals: i64) returns (r: Option<i64>)
    requires |val| <= TEXT_LIMIT && 0 <= decimals <= 18
    ensures r.Some? ==> Denotes(val, decimals, r.value)
    ensures r.None? ==> forall n :: !Denotes(val, decimals, n)
  {
    hide ScanHead, Decimal, Significant, ScanExponent, Denotes, Holds, WrittenExponent, Shifted;
    var ok, mantissaSign, mantissa, tzeros, pointOfs, rest;
    ghost var flushes;
    ok, mantissaSign, mantissa, tzeros, pointOfs, rest, flushes := ReadHead(val);
    if !ok {
      HeadRejected(val, decimals);
      return None;
    }
    var exponent: i64;
    ok, exponent := ReadExponent(rest);
    if !ok {
      ExponentRejected(val, decimals);
      return None;
    }
    Decided(val, decimals, mantissa, tzeros);
    exponent := exponent - pointOfs;
    exponent := exponent + tzeros;
    if mantissaSign {
      mantissa := -mantissa;
    }
    exponent := exponent + decimals;
    if exponent < 0 || exponent >= 18 {
      return None;
    }
    r := Rescale(mantissa, exponent);
  }
}
