/** Decimal text: the value of a digit string, and the text `format!` prints for a number. */
module Decimals {
  import opened Numerals

  predicate IsDigit(c: char) {
    '0' <= c <= '9'
  }

  predicate AllDigits(s: string) {
    forall i :: 0 <= i < |s| ==> IsDigit(s[i])
  }

  function DigitValue(c: char): int {
    c as int - '0' as int
  }

  function DigitValues(s: string): (ds: seq<int>)
    ensures |ds| == |s|
  {
    seq(|s|, i requires 0 <= i < |s| => DigitValue(s[i]))
  }

  function Decimal(s: string): int {
    Value(DigitValues(s), 10)
  }

  lemma DecimalSnoc(s: string, c: char)
    ensures Decimal(s + [c]) == Decimal(s) * 10 + DigitValue(c)
  {
    assert DigitValues(s + [c]) == DigitValues(s) + [DigitValue(c)];
    ValueSnoc(DigitValues(s), DigitValue(c), 10);
  }

  lemma DecimalConcat(s: string, t: string)
    ensures Decimal(s + t) == Decimal(s) * Pow(10, |t|) + Decimal(t)
  {
    hide Pow, Value, DigitValues;
    DigitValuesConcat(s, t);
    ValueConcat(DigitValues(s), DigitValues(t), 10);
  }

  lemma DigitValuesConcat(s: string, t: string)
    ensures DigitValues(s + t) == DigitValues(s) + DigitValues(t)
  {
  }

  lemma DecimalBound(s: string)
    requires AllDigits(s)
    ensures 0 <= Decimal(s) < Pow(10, |s|)
  {
    ValueBound(DigitValues(s), 10);
  }

  /** Reading more digits never lowers the value. */
  lemma DecimalGrows(s: string, t: string)
    requires AllDigits(s + t)
    ensures 0 <= Decimal(s) <= Decimal(s + t)
  {
    hide Decimal, Pow;
    assert AllDigits(s) && AllDigits(t) by {
      assert (s + t)[..|s|] == s && (s + t)[|s|..] == t;
    }
    DecimalConcat(s, t);
    DecimalBound(s);
    DecimalBound(t);
    MulGrows(Decimal(s), Pow(10, |t|));
  }

  // ---- Trailing zeros ----------------------------------------------------------------------

  /** The digits up to the last non-zero one. */
  function Significant(s: string): (t: string)
    ensures |t| <= |s| && t == s[..|t|]
    ensures t != "" ==> t[|t| - 1] != '0'
  {
    if s != "" && s[|s| - 1] == '0' then Significant(s[..|s| - 1]) else s
  }

  function TrailingZeros(s: string): nat {
    |s| - |Significant(s)|
  }

  lemma SignificantSnoc(s: string, c: char)
    ensures Significant(s + [c]) == if c == '0' then Significant(s) else s + [c]
  {
    assert (s + [c])[..|s|] == s;
  }

  /** Trailing zeros are a power of ten. */
  lemma {:induction false} TrailingZerosScale(s: string)
    ensures Decimal(s) == Decimal(Significant(s)) * Pow(10, TrailingZeros(s))
  {
    hide Decimal;
    if s != "" && s[|s| - 1] == '0' {
      var init := s[..|s| - 1];
      TrailingZerosScale(init);
      assert s == init + ['0'];
      DecimalSnoc(init, '0');
      Regroup(Decimal(Significant(s)), Pow(10, TrailingZeros(init)), 10);
    }
  }

  lemma SignificantNotTen(s: string)
    requires AllDigits(s)
    ensures Significant(s) != "" ==> Decimal(Significant(s)) % 10 != 0
    ensures Significant(s) == "" ==> Decimal(s) == 0
  {
    hide Decimal;
    var t := Significant(s);
    if t != "" {
      var init, c := t[..|t| - 1], t[|t| - 1];
      assert t == init + [c] && IsDigit(s[|t| - 1]);
      DecimalSnoc(init, c);
      DivMod(Decimal(init), DigitValue(c), 10);
    } else {
      TrailingZerosScale(s);
      EmptyDecimal();
    }
  }

  lemma EmptyDecimal()
    ensures Decimal("") == 0
  {
  }

  /** The significant part of a prefix is a prefix of the significant part. */
  lemma {:induction false} SignificantGrows(s: string, t: string)
    requires AllDigits(s + t)
    ensures 0 <= Decimal(Significant(s)) <= Decimal(Significant(s + t))
    decreases |t|
  {
    hide Decimal;
    if t == "" {
      assert s + t == s;
      assert Significant(s) + "" == Significant(s);
      DecimalGrows(Significant(s), "");
    } else {
      var init, c := t[..|t| - 1], t[|t| - 1];
      assert s + t == s + init + [c];
      assert s + init == (s + t)[..|s + init|];
      SignificantGrows(s, init);
      SignificantSnoc(s + init, c);
      if c != '0' {
        var u := s + init + [c];
        assert u == Significant(s) + u[|Significant(s)|..];
        DecimalGrows(Significant(s), u[|Significant(s)|..]);
      }
    }
  }

  // ---- Printing ----------------------------------------------------------------------------

  function DigitChar(d: int): (c: char)
    requires 0 <= d < 10
    ensures IsDigit(c) && DigitValue(c) == d
    ensures d != 0 ==> c != '0'
  {
    ('0' as int + d) as char
  }

  /** `{}` */
  function NatText(n: nat): (s: string)
    ensures |s| > 0 && AllDigits(s)
    ensures s[0] == '0' ==> |s| == 1
    ensures s == "0" ==> n == 0
  {
    if n < 10 then [DigitChar(n)] else NatText(n / 10) + [DigitChar(n % 10)]
  }

  lemma {:induction false} NatTextValue(n: nat)
    ensures Decimal(NatText(n)) == n
  {
    hide Decimal;
    if n < 10 {
      assert [DigitChar(n)] == "" + [DigitChar(n)];
      DecimalSnoc("", DigitChar(n));
      EmptyDecimal();
    } else {
      NatTextValue(n / 10);
      DecimalSnoc(NatText(n / 10), DigitChar(n % 10));
    }
  }

  lemma {:induction false} NatTextLength(n: nat, width: nat)
    requires width > 0 && n < Pow(10, width)
    ensures |NatText(n)| <= width
  {
    if n >= 10 {
      assert width > 1 by {
        assert Pow(10, 1) == 10;
      }
      NatTextLength(n / 10, width - 1);
    }
  }

  function Zeros(n: nat): (s: string)
    ensures |s| == n && AllDigits(s)
  {
    seq(n, _ => '0')
  }

  /** `{:0width}` */
  function PaddedText(n: nat, width: nat): (s: string)
    ensures AllDigits(s) && |s| >= width && |s| > 0
  {
    var s := NatText(n);
    if |s| >= width then s else Zeros(width - |s|) + s
  }

  lemma {:induction false} ZerosValue(n: nat)
    ensures Decimal(Zeros(n)) == 0
  {
    hide Decimal;
    if n == 0 {
      EmptyDecimal();
    } else {
      ZerosValue(n - 1);
      assert Zeros(n) == Zeros(n - 1) + ['0'];
      DecimalSnoc(Zeros(n - 1), '0');
    }
  }

  lemma PaddedTextValue(n: nat, width: nat)
    ensures Decimal(PaddedText(n, width)) == n
    ensures width > 0 && n < Pow(10, width) ==> |PaddedText(n, width)| == width
  {
    hide Decimal, Pow, NatText;
    NatTextValue(n);
    var s := NatText(n);
    if |s| < width {
      ZerosValue(width - |s|);
      DecimalConcat(Zeros(width - |s|), s);
    }
    if width > 0 && n < Pow(10, width) {
      NatTextLength(n, width);
    }
  }
}
