/**
 What an amount literal is and what it denotes, without reference to how it is parsed: the number
 grammar of section 6 of RFC 8259 as the texts of a literal datatype, and the exact rational value
 of a literal scaled by a power of ten.
 */
module AmountSyntax {
  import opened Wrappers
  import opened Numerals
  import opened Decimals

  /** 10^18 - 1 */
  const UPPER_BOUND: int := 999_999_999_999_999_999

  datatype Exponent = NoExponent | Exponent(mark: char, sign: string, digits: string)

  /** An empty `fraction` is an absent one. */
  datatype Literal = Literal(negative: bool, whole: string, fraction: string, exponent: Exponent)

  ghost predicate WellFormedExponent(e: Exponent) {
    e.Exponent? ==>
      && (e.mark == 'e' || e.mark == 'E')
      && (e.sign == "" || e.sign == "+" || e.sign == "-")
      && e.digits != "" && AllDigits(e.digits)
  }

  ghost predicate WellFormed(lit: Literal) {
    && lit.whole != "" && AllDigits(lit.whole) && (lit.whole[0] == '0' ==> |lit.whole| == 1)
    && AllDigits(lit.fraction)
    && WellFormedExponent(lit.exponent)
  }

  function ExponentText(e: Exponent): string {
    match e
    case NoExponent => ""
    case Exponent(mark, sign, digits) => [mark] + (sign + digits)
  }

  function FractionText(fraction: string): string {
    if fraction == "" then "" else "." + fraction
  }

  function LiteralText(lit: Literal): string {
    (if lit.negative then "-" else "") + (lit.whole + (FractionText(lit.fraction) + ExponentText(lit.exponent)))
  }

  /** `s` is the RFC 8259 number `lit`. */
  ghost predicate IsNumber(s: string, lit: Literal) {
    WellFormed(lit) && s == LiteralText(lit)
  }

  // ---- Denotation --------------------------------------------------------------------------

  /** All mantissa digits read as one integer. */
  function Coefficient(lit: Literal): int {
    Decimal(lit.whole + lit.fraction)
  }

  function WrittenExponent(e: Exponent): int {
    match e
    case NoExponent => 0
    case Exponent(_, sign, digits) => if sign == "-" then -Decimal(digits) else Decimal(digits)
  }

  /** The literal's value times 10^decimals is +-Coefficient * 10^Scale. */
  function Scale(lit: Literal, decimals: int): int {
    WrittenExponent(lit.exponent) - |lit.fraction| + decimals
  }

  function Signed(negative: bool, n: int): int {
    if negative then -n else n
  }

  /** c * 10^e == n, over the rationals. */
  ghost predicate ScaledEquals(c: int, e: int, n: int) {
    if e >= 0 then c * Pow(10, e) == n else c == n * Pow(10, -e)
  }

  function Abs(n: int): nat {
    if n < 0 then -n else n
  }

  /**
   `n` is the literal's value in units of 10^-decimals.  A literal without a non-zero digit is
   judged by its written exponent alone.
   */
  ghost predicate Accepts(lit: Literal, decimals: int, n: int) {
    if Coefficient(lit) == 0 then
      n == 0 && 0 <= WrittenExponent(lit.exponent) + decimals < 18
    else
      Abs(n) <= UPPER_BOUND && ScaledEquals(Signed(lit.negative, Coefficient(lit)), Scale(lit, decimals), n)
  }

  ghost predicate Denotes(s: string, decimals: int, n: int) {
    exists lit :: IsNumber(s, lit) && Accepts(lit, decimals, n)
  }

  // ---- The deterministic scanner -----------------------------------------------------------

  function DigitRun(s: string): (k: nat)
    ensures k <= |s| && AllDigits(s[..k]) && (k < |s| ==> !IsDigit(s[k]))
  {
    if s == "" || !IsDigit(s[0]) then 0
    else
      var k := DigitRun(s[1..]);
      assert forall i :: 0 < i < k + 1 ==> s[i] == s[1..][i - 1];
      k + 1
  }

  /** Characters of the integer part; 0 when there is none. */
  function WholeRun(s: string): (k: nat)
    ensures k <= |s|
  {
    if s != "" && s[0] == '0' then 1 else DigitRun(s)
  }

  /** Characters of the fraction part with its point; -1 when a point has no digit after it. */
  function FractionRun(s: string): (k: int)
    ensures -1 <= k <= |s| && k != 1
  {
    if s == "" || s[0] != '.' then 0
    else if DigitRun(s[1..]) == 0 then -1
    else 1 + DigitRun(s[1..])
  }

  function SignRun(s: string): (k: nat)
    ensures k <= |s|
  {
    if s != "" && (s[0] == '+' || s[0] == '-') then 1 else 0
  }

  function ScanExponent(s: string): Option<Exponent> {
    if s == "" then Some(NoExponent)
    else if s[0] != 'e' && s[0] != 'E' then None
    else
      var t := s[1..];
      var k := SignRun(t);
      var digits := t[k..];
      if digits != "" && DigitRun(digits) == |digits| then Some(Exponent(s[0], t[..k], digits)) else None
  }

  predicate IsNegative(s: string) {
    s != "" && s[0] == '-'
  }

  function Unsigned(s: string): string {
    if IsNegative(s) then s[1..] else s
  }

  /** Fraction and exponent. */
  function ScanTail(s: string): Option<(string, Exponent)> {
    var f := FractionRun(s);
    if f < 0 then None else
    match ScanExponent(s[f..])
    case None => None
    case Some(e) => Some((if f == 0 then "" else s[1..f], e))
  }

  function Scan(s: string): Option<Literal> {
    var body := Unsigned(s);
    var w := WholeRun(body);
    if w == 0 then None else
    match ScanTail(body[w..])
    case None => None
    case Some((fraction, e)) => Some(Literal(IsNegative(s), body[..w], fraction, e))
  }

  lemma {:induction false} DigitRunStops(ds: string, rest: string)
    requires AllDigits(ds) && (rest != "" ==> !IsDigit(rest[0]))
    ensures DigitRun(ds + rest) == |ds|
    decreases |ds|
  {
    if ds == "" {
      assert ds + rest == rest;
    } else {
      assert (ds + rest)[1..] == ds[1..] + rest;
      DigitRunStops(ds[1..], rest);
    }
  }

  lemma ScanExponentSound(s: string, e: Exponent)
    requires ScanExponent(s) == Some(e)
    ensures WellFormedExponent(e) && s == ExponentText(e)
  {
    hide IsDigit, AllDigits, DigitRun;
    if s != "" {
      var t := s[1..];
      var k := SignRun(t);
      assert e.digits[..|e.digits|] == e.digits;
      assert s == [s[0]] + t && t == t[..k] + t[k..];
      assert k == 1 ==> t[..k] == [t[0]];
    }
  }

  lemma ScanExponentComplete(e: Exponent)
    requires WellFormedExponent(e)
    ensures ScanExponent(ExponentText(e)) == Some(e)
  {
    if e.Exponent? {
      var s := ExponentText(e);
      var t := e.sign + e.digits;
      assert s[1..] == t && IsDigit(e.digits[0]);
      assert SignRun(t) == |e.sign|;
      assert t[..|e.sign|] == e.sign && t[|e.sign|..] == e.digits;
      DigitRunStops(e.digits, "");
      assert e.digits + "" == e.digits;
    }
  }

  /** The scanner finds the one literal a text can be, and fails on every text that is none. */
  lemma ScanExact(s: string, lit: Literal)
    ensures Scan(s) == Some(lit) <==> IsNumber(s, lit)
  {
    hide ScanExponent, WellFormedExponent, ExponentText;
    if Scan(s) == Some(lit) {
      ScanSound(s, lit);
    }
    if IsNumber(s, lit) {
      ScanComplete(s, lit);
    }
  }

  lemma ScanTailSound(s: string, fraction: string, e: Exponent)
    requires ScanTail(s) == Some((fraction, e))
    ensures AllDigits(fraction) && WellFormedExponent(e) && s == FractionText(fraction) + ExponentText(e)
  {
    hide ScanExponent, WellFormedExponent, ExponentText, IsDigit, AllDigits, FractionRun;
    var f := FractionRun(s);
    ScanExponentSound(s[f..], e);
    FractionRunSound(s);
    assert s == s[..f] + s[f..];
  }

  lemma ScanSound(s: string, lit: Literal)
    requires Scan(s) == Some(lit)
    ensures IsNumber(s, lit)
  {
    hide ScanTail, WellFormedExponent, ExponentText, FractionText, IsDigit, AllDigits, WholeRun;
    var body := Unsigned(s);
    var w := WholeRun(body);
    ScanTailSound(body[w..], lit.fraction, lit.exponent);
    WholeRunSound(body);
    assert body == body[..w] + body[w..];
    assert s == (if lit.negative then "-" else "") + body;
  }

  lemma WholeRunSound(s: string)
    ensures AllDigits(s[..WholeRun(s)])
    ensures WholeRun(s) > 1 ==> s[0] != '0'
  {
  }

  lemma FractionRunSound(s: string)
    ensures FractionRun(s) > 0 ==> AllDigits(s[1..FractionRun(s)]) && s[..FractionRun(s)] == "." + s[1..FractionRun(s)]
    ensures FractionRun(s) == 0 ==> AllDigits("")
  {
    if FractionRun(s) > 0 {
      assert s[1..][..DigitRun(s[1..])] == s[1..FractionRun(s)];
    }
  }

  lemma ScanTailComplete(fraction: string, e: Exponent)
    requires AllDigits(fraction) && WellFormedExponent(e)
    ensures ScanTail(FractionText(fraction) + ExponentText(e)) == Some((fraction, e))
  {
    hide ScanExponent, WellFormedExponent, ExponentText, AllDigits, FractionRun;
    var s, f := FractionText(fraction) + ExponentText(e), |FractionText(fraction)|;
    ExponentStart(e);
    FractionRunComplete(fraction, ExponentText(e));
    ScanExponentComplete(e);
    assert s[f..] == ExponentText(e);
    assert f > 0 ==> s[1..f] == fraction;
  }

  lemma ScanComplete(s: string, lit: Literal)
    requires IsNumber(s, lit)
    ensures Scan(s) == Some(lit)
  {
    hide ScanTail, WellFormedExponent, ExponentText, FractionText, AllDigits, WholeRun;
    var tail := FractionText(lit.fraction) + ExponentText(lit.exponent);
    var body := lit.whole + tail;
    TailStart(lit.fraction, lit.exponent);
    WholeRunComplete(lit.whole, tail);
    ScanTailComplete(lit.fraction, lit.exponent);
    assert s == (if lit.negative then "-" else "") + body;
    assert body[0] == lit.whole[0];
    assert Unsigned(s) == body && IsNegative(s) == lit.negative;
    assert body[..|lit.whole|] == lit.whole && body[|lit.whole|..] == tail;
  }

  lemma TailStart(fraction: string, e: Exponent)
    requires WellFormedExponent(e)
    ensures var tail := FractionText(fraction) + ExponentText(e); tail != "" ==> !IsDigit(tail[0])
  {
  }

  lemma WholeRunComplete(whole: string, rest: string)
    requires whole != "" && AllDigits(whole) && (whole[0] == '0' ==> |whole| == 1)
    requires rest != "" ==> !IsDigit(rest[0])
    ensures WholeRun(whole + rest) == |whole| && IsDigit(whole[0])
  {
    DigitRunStops(whole, rest);
  }

  lemma FractionRunComplete(fraction: string, rest: string)
    requires AllDigits(fraction) && (rest != "" ==> rest[0] != '.' && !IsDigit(rest[0]))
    ensures FractionRun(FractionText(fraction) + rest) == |FractionText(fraction)|
  {
    if fraction == "" {
      assert "" + rest == rest;
    } else {
      assert ("." + fraction + rest)[1..] == fraction + rest;
      DigitRunStops(fraction, rest);
    }
  }

  lemma ExponentStart(e: Exponent)
    requires WellFormedExponent(e)
    ensures ExponentText(e) != "" ==> ExponentText(e)[0] == 'e' || ExponentText(e)[0] == 'E'
  {
  }

  /** So a text denotes a number exactly when it scans and its literal is accepted. */
  lemma DenotesScan(s: string, decimals: int, n: int)
    ensures Denotes(s, decimals, n) <==> Scan(s).Some? && Accepts(Scan(s).value, decimals, n)
  {
    hide Scan, IsNumber, Accepts;
    if Scan(s).Some? {
      ScanExact(s, Scan(s).value);
    }
    if Denotes(s, decimals, n) {
      var lit :| IsNumber(s, lit) && Accepts(lit, decimals, n);
      ScanExact(s, lit);
    }
  }
}
