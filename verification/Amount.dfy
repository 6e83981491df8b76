/** Amounts on the wire: printing, reading back, and what holds between the two. */
module Amount {
  import opened Wrappers
  import opened Numerals
  import opened Decimals
  import opened AmountSyntax
  import opened AmountVerdict
  import opened AmountParser

  const COIN: int := 100_000_000
  const MAX_MONEY: int := 21_000_000 * COIN

  type u64 = x: int | 0 <= x < 0x1_0000_0000_0000_0000

  /** The number a text denotes; at most one does. */
  ghost function FixedPoint(s: string, decimals: int): Option<int> {
    if n :| Denotes(s, decimals, n) then Some(n) else None
  }

  lemma DenotesUnique(s: string, decimals: int, m: int, n: int)
    requires Denotes(s, decimals, m) && Denotes(s, decimals, n)
    ensures m == n
  {
    hide Denotes, Scan, Accepts, WellFormed;
    DenotesScan(s, decimals, m);
    DenotesScan(s, decimals, n);
    var lit := Scan(s).value;
    ScanExact(s, lit);
    FinalVerdict(lit, decimals, m);
    FinalVerdict(lit, decimals, n);
  }

  /** The verdict on a well-formed literal is decided by acceptance alone. */
  lemma FixedPointOfLiteral(lit: Literal, decimals: int, n: int)
    requires WellFormed(lit)
    ensures FixedPoint(LiteralText(lit), decimals) == Some(n) <==> Accepts(lit, decimals, n)
    ensures FixedPoint(LiteralText(lit), decimals) == None ==> !Accepts(lit, decimals, n)
  {
    hide Denotes, Scan, Accepts, LiteralText, WellFormed;
    var s := LiteralText(lit);
    ScanExact(s, lit);
    DenotesScan(s, decimals, n);
    if FixedPoint(s, decimals).Some? {
      var m := FixedPoint(s, decimals).value;
      DenotesScan(s, decimals, m);
      if Accepts(lit, decimals, n) {
        DenotesUnique(s, decimals, m, n);
      }
    }
  }

  // ---- Printing ----------------------------------------------------------------------------

  /** `{}.{:08}` */
  function AmountText(zats: nat): string {
    NatText(zats / COIN) + "." + PaddedText(zats % COIN, 8)
  }

  function SignedText(n: int): string {
    (if n < 0 then "-" else "") + AmountText(Abs(n))
  }

  function PrintedLiteral(n: int): Literal {
    Literal(n < 0, NatText(Abs(n) / COIN), PaddedText(Abs(n) % COIN, 8), NoExponent)
  }

  lemma PrintedLiteralText(n: int)
    ensures WellFormed(PrintedLiteral(n)) && LiteralText(PrintedLiteral(n)) == SignedText(n)
    ensures Coefficient(PrintedLiteral(n)) == Abs(n) && |PrintedLiteral(n).fraction| == 8
  {
    hide NatText, PaddedText, Decimal;
    var w, f := Abs(n) / COIN, Abs(n) % COIN;
    EightPlaces();
    PaddedTextValue(f, 8);
    NatTextValue(w);
    DecimalConcat(NatText(w), PaddedText(f, 8));
    var sign := if n < 0 then "-" else "";
    assert "." + PaddedText(f, 8) + "" == "." + PaddedText(f, 8);
    assert LiteralText(PrintedLiteral(n)) == SignedText(n);
  }

  lemma EightPlaces()
    ensures Pow(10, 8) == COIN
  {
    assert Pow(10, 4) == 10_000;
    PowAdd(10, 4, 4);
  }

  /** Reading back what was printed: exact below 10^18 in magnitude, refused from there on. */
  lemma SignedRoundTrip(n: int)
    ensures FixedPoint(SignedText(n), 8) ==
            if -1_000_000_000_000_000_000 < n < 1_000_000_000_000_000_000 then Some(n) else None
  {
    hide Coefficient, WellFormed, LiteralText, FixedPoint, Denotes, Pow;
    var lit := PrintedLiteral(n);
    PrintedLiteralText(n);
    FixedPointOfLiteral(lit, 8, n);
    EightPlaces();
    PowZero(n);
    if FixedPoint(SignedText(n), 8).Some? {
      var m := FixedPoint(SignedText(n), 8).value;
      FixedPointOfLiteral(lit, 8, m);
      PowZero(Signed(n < 0, Abs(n)));
    }
  }

  lemma PowZero(n: int)
    ensures n * Pow(10, 0) == n
  {
  }

  // ---- JSON values -------------------------------------------------------------------------

  /** Under `arbitrary_precision` a JSON number keeps its literal text. */
  datatype JsonValue = Number(literal: string) | Text(literal: string) | Other

  datatype AmountError = NotNumberOrString | InvalidAmount | OutOfRange

  function ZatsToValue(zats: u64): JsonValue {
    Number(AmountText(zats))
  }

  ghost function Zats(v: JsonValue): Result<int, AmountError> {
    if v.Other? then Err(NotNumberOrString) else
    match FixedPoint(v.literal, 8)
    case None => Err(InvalidAmount)
    case Some(n) => if 0 <= n <= MAX_MONEY then Ok(n) else Err(OutOfRange)
  }

  /** A number and a string are read alike: only the literal counts. */
  lemma NumberOrString(s: string)
    ensures Zats(Number(s)) == Zats(Text(s))
  {
  }

  /**
   An amount is accepted exactly when its literal denotes a number of zatoshis from 0 to
   21,000,000 * 10^8, and is that number; a number outside the range, a text that denotes nothing, and
   a value that is neither number nor string are three different errors.
   */
  method ValueToZats(v: JsonValue) returns (r: Result<u64, AmountError>)
    requires !v.Other? ==> |v.literal| <= TEXT_LIMIT
    ensures r == Zats(v)
    ensures r == Err(NotNumberOrString) <==> v.Other?
    ensures r == Err(InvalidAmount) <==> !v.Other? && forall n :: !Denotes(v.literal, 8, n)
    ensures r == Err(OutOfRange) <==>
              !v.Other? && exists n :: Denotes(v.literal, 8, n) && !(0 <= n <= 2_100_000_000_000_000)
    ensures forall n :: r == Ok(n) <==> !v.Other? && Denotes(v.literal, 8, n) && 0 <= n <= 2_100_000_000_000_000
  {
    hide Denotes;
    if !v.Other? {
      forall m, n | Denotes(v.literal, 8, m) && Denotes(v.literal, 8, n) ensures m == n {
        DenotesUnique(v.literal, 8, m, n);
      }
    }
    if v.Other? {
      return Err(NotNumberOrString);
    }
    var parsed := ParseFixedPoint(v.literal, 8);
    ghost var meant := FixedPoint(v.literal, 8);
    if parsed.None? {
      return Err(InvalidAmount);
    }
    if parsed.value < 0 || parsed.value > MAX_MONEY {
      return Err(OutOfRange);
    }
    r := Ok(parsed.value);
  }

  /** An amount survives the wire exactly when it is no more than the supply cap. */
  lemma ZatsRoundTrip(zats: u64)
    ensures Zats(ZatsToValue(zats)) == if zats <= 2_100_000_000_000_000 then Ok(zats) else
                                       if zats < 1_000_000_000_000_000_000 then Err(OutOfRange) else Err(InvalidAmount)
  {
    hide FixedPoint, AmountText;
    SignedRoundTrip(zats);
    assert SignedText(zats) == AmountText(zats);
  }

  /** Printed amounts: at least one digit, a point, and eight digits; their values are coins and the rest. */
  lemma AmountTextShape(zats: nat)
    ensures var s, n := AmountText(zats), |AmountText(zats)| - 9;
            && n >= 1 && s[n] == '.' && AllDigits(s[..n]) && AllDigits(s[n + 1..])
            && (s[0] == '0' ==> n == 1)
            && Decimal(s[..n]) * 100_000_000 + Decimal(s[n + 1..]) == zats
  {
    hide NatText, PaddedText, Decimal;
    var w, f := NatText(zats / COIN), PaddedText(zats % COIN, 8);
    EightPlaces();
    NatTextValue(zats / COIN);
    PaddedTextValue(zats % COIN, 8);
    var s := AmountText(zats);
    assert s[..|w|] == w && s[|w| + 1..] == f;
  }

  // ---- Spellings ---------------------------------------------------------------------------

  ghost function SignedCoefficient(lit: Literal): int {
    Signed(lit.negative, Coefficient(lit))
  }

  /** Two literals with the same rational value. */
  ghost predicate SameValue(a: Literal, b: Literal) {
    ScaledEquals(SignedCoefficient(a), Scale(a, 0) - Scale(b, 0), SignedCoefficient(b))
  }

  /** A number is an integer prime to ten times a power of ten in only one way. */
  lemma NormalFormUnique(m: int, p: nat, n: int, q: nat)
    requires m % 10 != 0 && n % 10 != 0 && m * Pow(10, p) == n * Pow(10, q)
    ensures m == n && p == q
  {
    hide Pow;
    if p <= q {
      PowAdd(10, q - p, p);
      MulAssociates(n, Pow(10, q - p), Pow(10, p));
      MulCancels(m, n * Pow(10, q - p), Pow(10, p));
      if p < q {
        PowTenDivides(q - p, n);
      }
    } else {
      PowAdd(10, p - q, q);
      MulAssociates(m, Pow(10, p - q), Pow(10, q));
      MulCancels(m * Pow(10, p - q), n, Pow(10, q));
      PowTenDivides(p - q, m);
    }
    PowZero(n);
  }

  lemma SignedMantissa(lit: Literal)
    requires WellFormed(lit) && Coefficient(lit) != 0
    ensures var m := Signed(lit.negative, Mantissa(lit));
            m % 10 != 0 && SignedCoefficient(lit) == m * Pow(10, TrailingZeros(Fed(lit)))
  {
    hide Mantissa, Coefficient, Pow, WellFormed, Fed;
    CoefficientFactors(lit);
    SignedProduct(lit.negative, Mantissa(lit), Pow(10, TrailingZeros(Fed(lit))));
    NegateMod(Mantissa(lit));
  }

  /** Equal non-zero values have the same significant digits and the same shift. */
  lemma SameValueSameForm(a: Literal, b: Literal, decimals: int)
    requires WellFormed(a) && WellFormed(b) && Coefficient(a) != 0 && Coefficient(b) != 0 && SameValue(a, b)
    ensures Signed(a.negative, Mantissa(a)) == Signed(b.negative, Mantissa(b))
    ensures Shift(a, decimals) == Shift(b, decimals)
  {
    hide Mantissa, Coefficient, Pow, WellFormed, Fed, ScaledEquals, SignedCoefficient, TrailingZeros;
    SignedMantissa(a);
    SignedMantissa(b);
    var ta, tb, d := TrailingZeros(Fed(a)), TrailingZeros(Fed(b)), Scale(a, 0) - Scale(b, 0);
    ScaledSplit(Signed(a.negative, Mantissa(a)), ta, d, SignedCoefficient(b));
    NormalFormUnique(Signed(a.negative, Mantissa(a)), d + ta, Signed(b.negative, Mantissa(b)), tb);
  }

  /** Two spellings of one non-zero value always get the same verdict. */
  lemma SameValueSameVerdict(a: Literal, b: Literal, decimals: int)
    requires WellFormed(a) && WellFormed(b) && Coefficient(a) != 0 && Coefficient(b) != 0 && SameValue(a, b)
    ensures FixedPoint(LiteralText(a), decimals) == FixedPoint(LiteralText(b), decimals)
  {
    hide Mantissa, Coefficient, Pow, WellFormed, SameValue, FixedPoint, LiteralText, Accepts, Shift;
    SameValueSameForm(a, b, decimals);
    CoefficientFactors(a);
    CoefficientFactors(b);
    forall n ensures Accepts(a, decimals, n) <==> Accepts(b, decimals, n) {
      AcceptsNonZero(a, decimals, n);
      AcceptsNonZero(b, decimals, n);
    }
    forall n
      ensures FixedPoint(LiteralText(a), decimals) == Some(n) <==> FixedPoint(LiteralText(b), decimals) == Some(n)
    {
      FixedPointOfLiteral(a, decimals, n);
      FixedPointOfLiteral(b, decimals, n);
    }
  }

  /** A zero is accepted by its written exponent alone, wherever its digits stand. */
  lemma ZeroVerdict(lit: Literal, decimals: int)
    requires WellFormed(lit) && Coefficient(lit) == 0
    ensures FixedPoint(LiteralText(lit), decimals) ==
            if 0 <= WrittenExponent(lit.exponent) + decimals < 18 then Some(0) else None
  {
    hide Coefficient, WellFormed, FixedPoint, LiteralText;
    FixedPointOfLiteral(lit, decimals, 0);
    if FixedPoint(LiteralText(lit), decimals).Some? {
      FixedPointOfLiteral(lit, decimals, FixedPoint(LiteralText(lit), decimals).value);
    }
  }

  /** What a literal spelled out this way denotes. */
  lemma Spelled(lit: Literal, c: int, n: int)
    requires WellFormed(lit) && Coefficient(lit) == c != 0 && Abs(n) <= UPPER_BOUND
    requires ScaledEquals(Signed(lit.negative, c), Scale(lit, 8), n)
    ensures FixedPoint(LiteralText(lit), 8) == Some(n)
  {
    hide WellFormed, Coefficient, ScaledEquals, Scale, LiteralText, FixedPoint;
    FixedPointOfLiteral(lit, 8, n);
  }

  /** Sign, point and exponent each count as the grammar says. */
  lemma AmountVectors()
    ensures FixedPoint("1.5", 8) == Some(150_000_000)
    ensures FixedPoint("-0.1", 8) == Some(-10_000_000)
    ensures FixedPoint("11E+1", 8) == Some(11_000_000_000)
    ensures FixedPoint("11e-1", 8) == Some(110_000_000)
  {
    hide FixedPoint, Pow;
    PowersOfTen();
    TwoDigits('1', '5');
    Spelled(Literal(false, "1", "5", NoExponent), 15, 150_000_000);
    assert "" + ("1" + ("." + "5" + "")) == "1.5";
    TwoDigits('0', '1');
    Spelled(Literal(true, "0", "1", NoExponent), 1, -10_000_000);
    assert "-" + ("0" + ("." + "1" + "")) == "-0.1";
    TwoDigits('1', '1');
    assert "11" + "" == "11";
    OneDigit('1');
    Spelled(Literal(false, "11", "", Exponent('E', "+", "1")), 11, 11_000_000_000);
    assert "" + ("11" + ("" + (['E'] + ("+" + "1")))) == "11E+1";
    Spelled(Literal(false, "11", "", Exponent('e', "-", "1")), 11, 110_000_000);
    assert "" + ("11" + ("" + (['e'] + ("-" + "1")))) == "11e-1";
  }

  /** A text that does not scan denotes nothing. */
  lemma Malformed(s: string)
    requires Scan(s).None?
    ensures FixedPoint(s, 8) == None
  {
    hide Scan, Denotes;
    if n :| Denotes(s, 8, n) {
      DenotesScan(s, 8, n);
    }
  }

  /** No sign but a minus, no leading zero, and a digit on either side of a point and after the mark. */
  lemma MalformedVectors()
    ensures FixedPoint("", 8) == None && FixedPoint("-", 8) == None && FixedPoint("+1", 8) == None
    ensures FixedPoint("01", 8) == None && FixedPoint(".1", 8) == None && FixedPoint("1.", 8) == None
    ensures FixedPoint("1e", 8) == None && FixedPoint("1 ", 8) == None
  {
    hide FixedPoint;
    NoWhole();
    NoTail();
    NoExponentDigits();
    Malformed("");
    Malformed("-");
    Malformed("+1");
    Malformed(".1");
    Malformed("01");
    Malformed("1.");
    Malformed("1e");
    Malformed("1 ");
  }

  lemma NoWhole()
    ensures Scan("").None? && Scan("-").None? && Scan("+1").None? && Scan(".1").None?
  {
  }

  lemma NoTail()
    ensures Scan("01").None? && Scan("1.").None? && Scan("1 ").None?
  {
    assert "01"[1..] == "1" && "1."[1..] == "." && "1 "[1..] == " ";
    assert "."[1..] == "";
    assert ScanTail("1").None? && ScanTail(".").None? && ScanTail(" ").None?;
  }

  lemma NoExponentDigits()
    ensures Scan("1e").None?
  {
    assert "1e"[1..] == "e" && "e"[1..] == "";
    assert ScanTail("e").None?;
  }

  lemma OneDigit(c: char)
    ensures Decimal([c]) == DigitValue(c)
  {
    assert [c] == "" + [c];
    DecimalSnoc("", c);
  }

  lemma TwoDigits(c: char, d: char)
    ensures Decimal([c] + [d]) == DigitValue(c) * 10 + DigitValue(d)
  {
    OneDigit(c);
    DecimalSnoc([c], d);
  }

  lemma PowersOfTen()
    ensures Pow(10, 7) == 10_000_000 && Pow(10, 9) == 1_000_000_000
  {
    EightPlaces();
    assert Pow(10, 8) == 10 * Pow(10, 7) && Pow(10, 9) == 10 * Pow(10, 8);
  }

  /** So two spellings of zero can differ: `0e9` is accepted and `0e10` is not. */
  lemma ZeroSpellingsDiffer()
    ensures FixedPoint("0e9", 8) == Some(0) && FixedPoint("0e10", 8) == None
    ensures FixedPoint("0e-8", 8) == Some(0) && FixedPoint("0e-9", 8) == None
  {
    hide FixedPoint;
    ZeroWithExponent("", "9", 9);
    ZeroWithExponent("", "10", 10);
    ZeroWithExponent("-", "8", 8);
    ZeroWithExponent("-", "9", 9);
    assert "0" + ("e" + ("" + "9")) == "0e9" && "0" + ("e" + ("" + "10")) == "0e10";
    assert "0" + ("e" + ("-" + "8")) == "0e-8" && "0" + ("e" + ("-" + "9")) == "0e-9";
  }

  lemma ZeroWithExponent(sign: string, digits: string, x: int)
    requires sign == "" || sign == "-"
    requires digits != "" && AllDigits(digits) && Decimal(digits) == x
    ensures FixedPoint("0" + ("e" + (sign + digits)), 8) ==
            if 0 <= (if sign == "-" then -x else x) + 8 < 18 then Some(0) else None
  {
    hide FixedPoint;
    var lit := Literal(false, "0", "", Exponent('e', sign, digits));
    assert "0" + "" == "0" && Coefficient(lit) == 0;
    ZeroVerdict(lit, 8);
    assert LiteralText(lit) == "0" + ("e" + (sign + digits));
  }
}
