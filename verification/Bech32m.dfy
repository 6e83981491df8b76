/**
 `bech32m_encode`: regrouping bytes into five-bit symbols, appending the checksum, and the text form.
 The reference decoder splits at the last '1', so the human-readable part may be any string.
 */
module Bech32m {
  import opened Wrappers
  import opened Numerals
  import opened Characters
  import opened Bech32mChecksum

  type symbol = x: int | 0 <= x < 32

  const CHARSET: string := "qpzry9x8gf2tvdw0s3jn54khce6mua7l"

  // ---- Regrouping --------------------------------------------------------------------------

  /** ceil(8n / 5) symbols carry n bytes. */
  function SymbolCount(bytes: nat): nat {
    (8 * bytes + 4) / 5
  }

  function Padding(bytes: nat): (pad: nat)
    ensures pad < 5 && 5 * SymbolCount(bytes) == 8 * bytes + pad
  {
    5 * SymbolCount(bytes) - 8 * bytes
  }

  /** The data as one number, shifted left by the padding, written in base 32. */
  ghost function Regrouped(data: seq<byte>): seq<int> {
    Numeral(Value(data, 256) * Pow(2, Padding(|data|)), 32, SymbolCount(|data|))
  }

  lemma {:induction false} PowTimes(b: nat, m: nat, n: nat)
    ensures Pow(Pow(b, m), n) == Pow(b, m * n)
  {
    if n > 0 {
      PowTimes(b, m, n - 1);
      PowAdd(b, m, m * (n - 1));
      assert m + m * (n - 1) == m * n;
    }
  }

  lemma PowersOfTwo(n: nat)
    ensures Pow(256, n) == Pow(2, 8 * n) && Pow(32, n) == Pow(2, 5 * n)
  {
    PowTimes(2, 8, n);
    PowTimes(2, 5, n);
    assert Pow(2, 3) == 8;
    PowAdd(2, 3, 5);
    assert Pow(2, 2) == 4;
    PowAdd(2, 2, 3);
  }

  lemma ShiftedFits(data: seq<byte>)
    ensures 0 <= Value(data, 256) * Pow(2, Padding(|data|)) < Pow(32, SymbolCount(|data|))
  {
    hide Pow, Value, SymbolCount, Padding;
    var n, pad := |data|, Padding(|data|);
    ValueBound(data, 256);
    PowersOfTwo(n);
    PowersOfTwo(SymbolCount(n));
    PowAdd(2, 8 * n, pad);
    MulStrict(Value(data, 256), Pow(256, n), Pow(2, pad));
  }

  /** Symbols in range whose base-32 value is the padded base-256 value of the data. */
  lemma RegroupedValue(data: seq<byte>)
    ensures |Regrouped(data)| == SymbolCount(|data|) && InBase(Regrouped(data), 32)
    ensures Value(Regrouped(data), 32) == Value(data, 256) * Pow(2, Padding(|data|))
  {
    ShiftedFits(data);
    NumeralValue(Value(data, 256) * Pow(2, Padding(|data|)), 32, SymbolCount(|data|));
  }

  /** Whole blocks of five bytes are regrouped by themselves. */
  lemma RegroupedBlocks(a: seq<byte>, b: seq<byte>)
    requires |a| % 5 == 0
    ensures Regrouped(a + b) == Regrouped(a) + Regrouped(b)
  {
    hide Regrouped, Value, Pow, Padding, SymbolCount;
    var pad, xs, ys := Padding(|b|), Regrouped(a), Regrouped(b);
    BlockCounts(|a|, |b|);
    RegroupedValue(a);
    RegroupedValue(b);
    RegroupedValue(a + b);
    PowOfZero(Value(a, 256));
    ValueConcat(a, b, 256);
    ValueConcat(xs, ys, 32);
    PowersOfTwo(|b|);
    PowersOfTwo(|ys|);
    PowAdd(2, 8 * |b|, pad);
    BlockValue(Value(a, 256), Pow(256, |b|), Value(b, 256), Pow(2, pad));
    ValueUnique(Regrouped(a + b), xs + ys, 32);
  }

  lemma BlockCounts(m: nat, n: nat)
    requires m % 5 == 0
    ensures Padding(m) == 0 && Padding(m + n) == Padding(n) && SymbolCount(m + n) == SymbolCount(m) + SymbolCount(n)
  {
  }

  lemma PowOfZero(x: int)
    ensures x * Pow(2, 0) == x
  {
  }

  lemma BlockValue(x: int, p: int, y: int, k: int)
    ensures (x * p + y) * k == x * (p * k) + y * k
  {
    Regroup(x, p, k);
    assert p * k == k * p;
  }

  /** The symbols emitted so far are the accumulator without the `bits` bits still waiting. */
  ghost predicate Emitted(five: seq<int>, acc: nat, bits: nat) {
    Value(five, 32) == acc / Pow(2, bits)
  }

  lemma AbsorbByte(five: seq<int>, acc: nat, bits: nat, b: byte)
    requires Emitted(five, acc, bits)
    ensures Emitted(five, acc * 256 + b, bits + 8)
  {
    PowersOfTwo(1);
    PowAdd(2, 8, bits);
    DivMod(acc, b, 256);
    DivDiv(acc * 256 + b, 256, Pow(2, bits));
  }

  lemma EmitSymbol(five: seq<int>, acc: nat, bits: nat)
    requires Emitted(five, acc, bits + 5)
    ensures Emitted(five + [(acc / Pow(2, bits)) % 32], acc, bits)
  {
    PowAdd(2, bits, 5);
    PowersOfTwo(1);
    DivDiv(acc, Pow(2, bits), 32);
    ValueSnoc(five, (acc / Pow(2, bits)) % 32, 32);
  }

  lemma EmitPadded(five: seq<int>, acc: nat, bits: nat)
    requires bits < 5 && Emitted(five, acc, bits)
    ensures Value(five + [(acc * Pow(2, 5 - bits)) % 32], 32) == acc * Pow(2, 5 - bits)
  {
    hide Value, Pow;
    var p, k := Pow(2, bits), Pow(2, 5 - bits);
    PowAdd(2, bits, 5 - bits);
    ThirtyTwo();
    ShiftMod(acc, p, k);
    ValueSnoc(five, (acc * k) % 32, 32);
  }

  lemma ThirtyTwo()
    ensures Pow(2, 5) == 32
  {
    PowersOfTwo(1);
  }

  lemma ShiftMod(acc: nat, p: nat, k: nat)
    requires p > 0 && k > 0 && p * k == 32
    ensures acc / p * 32 + (acc * k) % 32 == acc * k
  {
    var q, r := acc / p, acc % p;
    Euclid(acc, p);
    assert k * p == 32;
    Distribute(q, p, r, k);
    MulStrict(r, p, k);
    DivMod(q, r * k, 32);
  }

  /** The accumulator loop: `acc` is never masked, so it holds all the data read so far. */
  method ConvertBits(data: seq<byte>) returns (five: seq<symbol>)
    ensures five == Regrouped(data)
  {
    hide Emitted, Regrouped, Value, Pow;
    var acc: nat, bits: nat := 0, 0;
    five := [];
    EmittedNothing();
    for i := 0 to |data|
      invariant acc == Value(data[..i], 256)
      invariant bits < 5 && 5 * |five| + bits == 8 * i
      invariant Emitted(five, acc, bits)
    {
      assert data[..i + 1] == data[..i] + [data[i]];
      ValueSnoc(data[..i], data[i], 256);
      AbsorbByte(five, acc, bits, data[i]);
      acc, bits := acc * 256 + data[i], bits + 8;
      while bits >= 5
        invariant 5 * |five| + bits == 8 * (i + 1)
        invariant Emitted(five, acc, bits)
      {
        bits := bits - 5;
        EmitSymbol(five, acc, bits);
        five := five + [(acc / Pow(2, bits)) % 32];
      }
    }
    assert data[..|data|] == data;
    if bits > 0 {
      EmitPadded(five, acc, bits);
      five := five + [(acc * Pow(2, 5 - bits)) % 32];
    } else {
      EmittedAll(five, acc);
    }
    RegroupedValue(data);
    ValueUnique(five, Regrouped(data), 32);
  }

  lemma EmittedNothing()
    ensures Value([], 256) == 0 && Emitted([], 0, 0)
  {
  }

  lemma EmittedAll(five: seq<int>, acc: nat)
    requires Emitted(five, acc, 0)
    ensures Value(five, 32) == acc * Pow(2, 0)
  {
  }

  // ---- Text --------------------------------------------------------------------------------

  /** A number as a word of the register. */
  function Word(x: int): bv30
    requires 0 <= x < 0x4000_0000
  {
    x as bv30
  }

  /** `[ord(c) >> 5 for c in hrp] + [0] + [ord(c) & 31 for c in hrp]` */
  function Expanded(hrp: string): seq<bv30> {
    seq(|hrp|, i requires 0 <= i < |hrp| => Word(hrp[i] as int / 32))
    + [0]
    + seq(|hrp|, i requires 0 <= i < |hrp| => Word(hrp[i] as int % 32))
  }

  /** The high bits of every character, a zero, and the low bits of every character, in order. */
  lemma ExpandedShape(hrp: string, i: nat)
    requires i < |hrp|
    ensures |Expanded(hrp)| == 2 * |hrp| + 1 && Expanded(hrp)[|hrp|] == 0
    ensures Expanded(hrp)[i] == Word(hrp[i] as int / 32)
    ensures Expanded(hrp)[|hrp| + 1 + i] == Word(hrp[i] as int % 32)
  {
    hide Word;
  }

  function Words(symbols: seq<symbol>): (ws: seq<bv30>)
    ensures |ws| == |symbols|
  {
    seq(|symbols|, i requires 0 <= i < |symbols| => Word(symbols[i]))
  }

  function Indices(words: seq<bv30>): (symbols: seq<symbol>)
    requires Symbols(words)
    ensures |symbols| == |words|
  {
    seq(|words|, i requires 0 <= i < |words| => words[i] as int)
  }

  function Text(symbols: seq<symbol>): (text: string)
    ensures |text| == |symbols|
  {
    seq(|symbols|, i requires 0 <= i < |symbols| => CHARSET[symbols[i]])
  }

  /** The checksum symbols for a payload under a human-readable part. */
  function Tag(hrp: string, five: seq<symbol>): (tag: seq<symbol>)
    ensures |tag| == 6
  {
    ChecksumVerifies(Expanded(hrp) + Words(five));
    Indices(Checksum(Expanded(hrp) + Words(five)))
  }

  ghost function Encoded(hrp: string, data: seq<byte>): string {
    RegroupedValue(data);
    var five: seq<symbol> := Regrouped(data);
    hrp + "1" + Text(five + Tag(hrp, five))
  }

  method Encode(hrp: string, data: seq<byte>) returns (address: string)
    ensures address == Encoded(hrp, data)
  {
    var five := ConvertBits(data);
    var pm := Polymod(Expanded(hrp) + Words(five) + SIX_ZEROS);
    ChecksumVerifies(Expanded(hrp) + Words(five));
    var checksum := Unpack(Xor(pm, BECH32M_CONST));
    address := hrp + "1" + Text(five + Indices(checksum));
  }

  // ---- The reference decoder ---------------------------------------------------------------

  /** The index of a charset character, or -1. */
  function SymbolOf(c: char): (x: int)
    ensures -1 <= x < 32
  {
    match c
    case 'q' => 0
    case 'p' => 1
    case 'z' => 2
    case 'r' => 3
    case 'y' => 4
    case '9' => 5
    case 'x' => 6
    case '8' => 7
    case 'g' => 8
    case 'f' => 9
    case '2' => 10
    case 't' => 11
    case 'v' => 12
    case 'd' => 13
    case 'w' => 14
    case '0' => 15
    case 's' => 16
    case '3' => 17
    case 'j' => 18
    case 'n' => 19
    case '5' => 20
    case '4' => 21
    case 'k' => 22
    case 'h' => 23
    case 'c' => 24
    case 'e' => 25
    case '6' => 26
    case 'm' => 27
    case 'u' => 28
    case 'a' => 29
    case '7' => 30
    case 'l' => 31
    case _ => -1
  }

  lemma SymbolOfCharset(x: symbol)
    ensures SymbolOf(CHARSET[x]) == x && CHARSET[x] != '1'
  {
  }

  function SymbolsOf(text: string): (r: Option<seq<symbol>>)
    ensures r.Some? ==> |r.value| == |text|
  {
    if exists i :: 0 <= i < |text| && SymbolOf(text[i]) < 0 then None
    else Some(seq(|text|, i requires 0 <= i < |text| => SymbolOf(text[i])))
  }

  predicate Verifies(hrp: string, symbols: seq<symbol>) {
    Run(1, Expanded(hrp) + Words(symbols)) == BECH32M_CONST
  }

  /** Whole bytes out of five-bit groups; fewer than five leftover bits, all zero, are dropped. */
  function Ungrouped(payload: seq<symbol>): Option<seq<int>> {
    var n := 5 * |payload| / 8;
    var pad := 5 * |payload| - 8 * n;
    var v := Value(payload, 32);
    if pad >= 5 || v % Pow(2, pad) != 0 then None
    else Some(Numeral(v / Pow(2, pad), 256, n))
  }

  function Decode(text: string): Option<(string, seq<int>)> {
    var k := LastIndexOf(text, '1');
    if k < 0 then None else
    match SymbolsOf(text[k + 1..])
    case None => None
    case Some(symbols) =>
      var n := |symbols| - 6;
      if n < 0 || !Verifies(text[..k], symbols) then None else
      match Ungrouped(symbols[..n])
      case None => None
      case Some(data) => Some((text[..k], data))
  }

  // ---- Round trip --------------------------------------------------------------------------

  lemma UngroupedRegrouped(data: seq<byte>)
    ensures InBase(Regrouped(data), 32) && Ungrouped(Regrouped(data)) == Some(data)
  {
    hide Pow, Value, Numeral, Regrouped;
    RegroupedValue(data);
    var n, pad, v := |data|, Padding(|data|), Value(data, 256);
    assert 5 * |Regrouped(data)| / 8 == n;
    ValueBound(data, 256);
    DivMod(v, 0, Pow(2, pad));
    NumeralValue(v, 256, n);
    ValueUnique(Numeral(v, 256, n), data, 256);
  }

  lemma SymbolsOfText(symbols: seq<symbol>)
    ensures SymbolsOf(Text(symbols)) == Some(symbols)
    ensures forall i :: 0 <= i < |symbols| ==> Text(symbols)[i] != '1'
  {
    hide SymbolOf;
    forall i | 0 <= i < |symbols| ensures SymbolOf(Text(symbols)[i]) == symbols[i] && Text(symbols)[i] != '1' {
      SymbolOfCharset(symbols[i]);
    }
    var text := Text(symbols);
    assert seq(|text|, i requires 0 <= i < |text| => SymbolOf(text[i])) == symbols;
  }

  /** Decoding a symbol text is verifying the checksum and ungrouping the payload. */
  lemma DecodeSymbols(hrp: string, symbols: seq<symbol>)
    requires |symbols| >= 6
    ensures var r, n := Decode(hrp + "1" + Text(symbols)), |symbols| - 6;
            if Verifies(hrp, symbols) && Ungrouped(symbols[..n]).Some?
            then r == Some((hrp, Ungrouped(symbols[..n]).value)) else r == None
  {
    hide Verifies, Ungrouped, Text, SymbolsOf, LastIndexOf;
    SymbolsOfText(symbols);
    SplitAtLast(hrp, '1', Text(symbols));
    var text := hrp + "1" + Text(symbols);
    assert text[..|hrp|] == hrp && text[|hrp| + 1..] == Text(symbols);
  }

  /** Every encoded address passes its own checksum. */
  lemma TagVerifies(hrp: string, five: seq<symbol>)
    ensures Verifies(hrp, five + Tag(hrp, five))
  {
    hide Run, Expanded, Checksum;
    var values := Expanded(hrp) + Words(five);
    ChecksumVerifies(values);
    WordsOfIndices(Checksum(values));
    assert Words(five + Tag(hrp, five)) == Words(five) + Words(Tag(hrp, five));
    assert Expanded(hrp) + Words(five + Tag(hrp, five)) == values + Checksum(values);
  }

  lemma WordsOfIndices(words: seq<bv30>)
    requires Symbols(words)
    ensures Words(Indices(words)) == words
  {
    hide Word;
    forall i | 0 <= i < |words| ensures Word(words[i] as int) == words[i] {
      SymbolWord(words[i]);
    }
  }

  lemma SymbolWord(w: bv30)
    requires w < 32
    ensures Word(w as int) == w
  {
  }

  lemma WordSymbol(x: symbol)
    ensures Word(x) < 32 && Word(x) as int == x
  {
    hide Word;
    Words28To31();
    Words24To27();
    Words20To23();
    Words16To19();
    Words12To15();
    Words8To11();
    Words4To7();
    Words0To3();
  }

  lemma Words28To31()
    ensures Word(31) == 31 && Word(30) == 30 && Word(29) == 29 && Word(28) == 28
  {
  }

  lemma Words24To27()
    ensures Word(27) == 27 && Word(26) == 26 && Word(25) == 25 && Word(24) == 24
  {
  }

  lemma Words20To23()
    ensures Word(23) == 23 && Word(22) == 22 && Word(21) == 21 && Word(20) == 20
  {
  }

  lemma Words16To19()
    ensures Word(19) == 19 && Word(18) == 18 && Word(17) == 17 && Word(16) == 16
  {
  }

  lemma Words12To15()
    ensures Word(15) == 15 && Word(14) == 14 && Word(13) == 13 && Word(12) == 12
  {
  }

  lemma Words8To11()
    ensures Word(11) == 11 && Word(10) == 10 && Word(9) == 9 && Word(8) == 8
  {
  }

  lemma Words4To7()
    ensures Word(7) == 7 && Word(6) == 6 && Word(5) == 5 && Word(4) == 4
  {
  }

  lemma Words0To3()
    ensures Word(3) == 3 && Word(2) == 2 && Word(1) == 1 && Word(0) == 0
  {
  }

  /** Decoding what was encoded gives back the human-readable part and the bytes. */
  lemma DecodeEncoded(hrp: string, data: seq<byte>)
    ensures Decode(Encoded(hrp, data)) == Some((hrp, data))
  {
    hide Decode, Verifies, Ungrouped, Tag, Regrouped;
    RegroupedValue(data);
    var five: seq<symbol> := Regrouped(data);
    var symbols := five + Tag(hrp, five);
    TagVerifies(hrp, five);
    DecodeSymbols(hrp, symbols);
    assert symbols[..|symbols| - 6] == five;
    UngroupedRegrouped(data);
  }

  /** So no two inputs share an address. */
  lemma EncodedInjective(hrp: string, data: seq<byte>, hrp': string, data': seq<byte>)
    requires Encoded(hrp, data) == Encoded(hrp', data')
    ensures hrp == hrp' && data == data'
  {
    hide Decode, Encoded;
    DecodeEncoded(hrp, data);
    DecodeEncoded(hrp', data');
  }

  // ---- Error detection ---------------------------------------------------------------------

  /**
   Take any text that verifies, and alter symbols within six consecutive places after the
   separator: the result is not a decodable address.  One altered symbol, two adjacent ones
   swapped, or six overwritten are all covered.
   */
  lemma AlteredAddressRejected(hrp: string, xs: seq<symbol>, ys: seq<symbol>, at: nat)
    requires |xs| == |ys| && at + 6 <= |xs|
    requires xs[..at] == ys[..at] && xs[at + 6..] == ys[at + 6..] && xs != ys
    requires Verifies(hrp, xs)
    ensures Decode(hrp + "1" + Text(ys)) == None
  {
    hide Decode, Ungrouped, Text, Run, Expanded;
    if Run(1, Expanded(hrp) + Words(ys)) == BECH32M_CONST {
      SameChecksumSameSymbols(hrp, xs, ys, at);
      assert false;
    }
    DecodeSymbols(hrp, ys);
  }

  lemma SameChecksumSameSymbols(hrp: string, xs: seq<symbol>, ys: seq<symbol>, at: nat)
    requires |xs| == |ys| && at + 6 <= |xs|
    requires xs[..at] == ys[..at] && xs[at + 6..] == ys[at + 6..]
    requires Run(1, Expanded(hrp) + Words(xs)) == Run(1, Expanded(hrp) + Words(ys))
    ensures xs == ys
  {
    hide Run, Expanded;
    var c, u, v := Run(1, Expanded(hrp)), Words(xs), Words(ys);
    RunConcat(1, Expanded(hrp), u);
    RunConcat(1, Expanded(hrp), v);
    forall i | 0 <= i < |xs| ensures u[i] < 32 && v[i] < 32 && u[i] as int == xs[i] && v[i] as int == ys[i] {
      WordSymbol(xs[i]);
      WordSymbol(ys[i]);
    }
    assert u[..at] == v[..at] by {
      forall i | 0 <= i < at ensures u[i] == v[i] {
        assert xs[..at][i] == ys[..at][i];
      }
    }
    assert u[at + 6..] == v[at + 6..] by {
      forall i | at + 6 <= i < |u| ensures u[i] == v[i] {
        assert xs[at + 6..][i - at - 6] == ys[at + 6..][i - at - 6];
      }
    }
    BurstDetected(c, u, v, at);
  }
}
