/**
 Anchors: each generator by itself, and two test vectors of BIP 350 worked through, which pin the
 character set, the expansion of the human-readable part, the generators and the constant.
 */
module Bech32mVectors {
  import opened Numerals
  import opened Characters
  import opened Bech32mChecksum
  import opened Bech32m

  /** A single bit shifted out of the register brings in exactly its generator. */
  lemma GeneratorOfBit()
    ensures Step(0x2000000, 0) == 0x3B6A57B2
    ensures Step(0x4000000, 0) == 0x26508E6D
    ensures Step(0x8000000, 0) == 0x1EA119FA
    ensures Step(0x10000000, 0) == 0x3D4233DD
    ensures Step(0x20000000, 0) == 0x2A1462B3
  {
    hide Step;
    StepUnrolled(0x2000000, 0);
    StepUnrolled(0x4000000, 0);
    StepUnrolled(0x8000000, 0);
    StepUnrolled(0x10000000, 0);
    StepUnrolled(0x20000000, 0);
  }

  /** What one round of the inner loop mixes in. */
  function Round(t: bv30, i: nat): bv30
    requires i < 5
  {
    Pick(Bit(t, i), Generator(i))
  }

  /** The step with its inner loop written out. */
  lemma StepUnrolled(chk: bv30, v: bv30)
    ensures var t := Top(chk);
            Step(chk, v) ==
            Xor(Xor(Shift(chk), v),
                Xor(Xor(Xor(Xor(Xor(0, Round(t, 0)), Round(t, 1)), Round(t, 2)), Round(t, 3)), Round(t, 4)))
  {
    hide Xor, Pick, Bit, Generator, Shift, Top;
    var t := Top(chk);
    assert Feedback(t, 1) == Xor(0, Round(t, 0));
    assert Feedback(t, 3) == Xor(Xor(Feedback(t, 1), Round(t, 1)), Round(t, 2));
    assert Feedback(t, 5) == Xor(Xor(Feedback(t, 3), Round(t, 3)), Round(t, 4));
  }

  lemma VectorRun()
    ensures Run(1, [3, 0, 1] + SIX_ZEROS) == 0x15CCFE9E
  {
    hide Step;
    StepUnrolled(1, 3);
    StepUnrolled(0x23, 0);
    StepUnrolled(0x460, 1);
    StepUnrolled(0x8C01, 0);
    StepUnrolled(0x118020, 0);
    StepUnrolled(0x2300400, 0);
    StepUnrolled(0x3D6AD7B2, 0);
    StepUnrolled(0x2FD30B9, 0);
    StepUnrolled(0x24CC4092, 0);
    RunConcat(1, [3, 0, 1], SIX_ZEROS);
    RunUnrolled(0x8C01, SIX_ZEROS);
    assert Run(1, [3, 0, 1]) == Run(0x23, [0, 1]) by {
      assert [3 as bv30, 0, 1][1..] == [0, 1];
    }
    assert Run(0x23, [0, 1]) == Run(0x460, [1]) by {
      assert [0 as bv30, 1][1..] == [1];
    }
    assert Run(0x460, [1]) == 0x8C01 by {
      assert [1 as bv30][1..] == [];
    }
  }

  lemma VectorExpanded()
    ensures Expanded("a") + Words([]) == [3, 0, 1]
  {
    assert 'a' as int / 32 == 3 && 'a' as int % 32 == 1;
    assert |Expanded("a")| == 3;
    assert Word(3) == 3 && Word(1) == 1;
  }

  lemma VectorTag()
    ensures Tag("a", []) == [31, 0, 9, 19, 17, 29]
  {
    hide Run, Expanded;
    VectorExpanded();
    VectorRun();
    assert Xor(0x15CCFE9E, BECH32M_CONST) == 0x3E04CE3D;
    assert Unpack(0x3E04CE3D) == [31, 0, 9, 19, 17, 29];
    ChecksumVerifies([3, 0, 1]);
    assert Indices([31, 0, 9, 19, 17, 29]) == [31, 0, 9, 19, 17, 29];
  }

  /** The first lower-case test vector of BIP 350: no data under the human-readable part "a". */
  lemma Bip350Vector()
    ensures Encoded("a", []) == "a1lqfn3a"
  {
    hide Tag, Regrouped, Text;
    RegroupedNothing();
    VectorTag();
    var symbols: seq<symbol> := [31, 0, 9, 19, 17, 29];
    assert [] + symbols == symbols;
    VectorText();
    assert Encoded("a", []) == "a" + "1" + Text(symbols);
  }

  lemma RegroupedNothing()
    ensures Regrouped([]) == []
  {
    hide Regrouped;
    RegroupedValue([]);
  }

  lemma VectorText()
    ensures Text([31, 0, 9, 19, 17, 29]) == "lqfn3a"
  {
    assert CHARSET[31] == 'l' && CHARSET[0] == 'q' && CHARSET[9] == 'f';
    assert CHARSET[19] == 'n' && CHARSET[17] == '3' && CHARSET[29] == 'a';
  }

  // ---- All 32 symbols under "abcdef" -------------------------------------------------------

  /** Eight symbols counting down; twenty bytes make four such blocks. */
  function Countdown(h: int): seq<symbol>
    requires 7 <= h < 32
  {
    [h, h - 1, h - 2, h - 3, h - 4, h - 5, h - 6, h - 7]
  }

  lemma RunTwo(chk: bv30, xs: seq<bv30>)
    requires |xs| == 2
    ensures Run(chk, xs) == Step(Step(chk, xs[0]), xs[1])
  {
    hide Step;
    var c1 := Step(chk, xs[0]);
    assert Run(chk, xs) == Run(c1, xs[1..]);
    assert Run(c1, xs[1..]) == Run(Step(c1, xs[1]), xs[2..]);
  }

  lemma RunFive(chk: bv30, xs: seq<bv30>)
    requires |xs| == 5
    ensures Run(chk, xs) == Step(Step(Step(Step(Step(chk, xs[0]), xs[1]), xs[2]), xs[3]), xs[4])
  {
    hide Step;
    var c1 := Step(chk, xs[0]);
    var c2 := Step(c1, xs[1]);
    var c3 := Step(c2, xs[2]);
    assert Run(chk, xs) == Run(c1, xs[1..]);
    assert Run(c1, xs[1..]) == Run(c2, xs[2..]);
    assert Run(c2, xs[2..]) == Run(c3, xs[3..]);
    RunTwo(c3, xs[3..]);
  }

  lemma RunEight(chk: bv30, xs: seq<bv30>)
    requires |xs| == 8
    ensures Run(chk, xs)
            == Step(Step(Step(Step(Step(Step(Step(Step(chk,
                 xs[0]), xs[1]), xs[2]), xs[3]), xs[4]), xs[5]), xs[6]), xs[7])
  {
    hide Step, Run;
    assert xs == xs[..6] + xs[6..];
    RunConcat(chk, xs[..6], xs[6..]);
    RunUnrolled(chk, xs[..6]);
    RunTwo(Run(chk, xs[..6]), xs[6..]);
  }

  lemma HighBits()
    ensures Run(1, [3, 3, 3, 3, 3, 3, 0, 1]) == 0x3DC7154C
  {
    hide Step, Run;
    StepUnrolled(1, 3);
    StepUnrolled(0x23, 3);
    StepUnrolled(0x463, 3);
    StepUnrolled(0x8C63, 3);
    StepUnrolled(0x118C63, 3);
    StepUnrolled(0x2318C63, 3);
    StepUnrolled(0x3D5BDBD1, 0);
    StepUnrolled(0x4DCBCD9, 1);
    RunEight(1, [3, 3, 3, 3, 3, 3, 0, 1]);
  }

  lemma LowBits()
    ensures Run(0x3DC7154C, [2, 3, 4, 5, 6]) == 0x3BE80E6A
  {
    hide Step, Run;
    StepUnrolled(0x3DC7154C, 2);
    StepUnrolled(0x17456F7B, 3);
    StepUnrolled(0x8D50561, 4);
    StepUnrolled(0x401B5DE, 5);
    StepUnrolled(0x266635A8, 6);
    RunFive(0x3DC7154C, [2, 3, 4, 5, 6]);
  }

  lemma Block0Run()
    ensures Run(0x3BE80E6A, [31, 30, 29, 28, 27, 26, 25, 24]) == 0x387A7C0C
  {
    hide Step, Run;
    StepUnrolled(0x3BE80E6A, 31);
    StepUnrolled(0xF9CD279, 30);
    StepUnrolled(0x30018F1B, 29);
    StepUnrolled(0x1767B213, 28);
    StepUnrolled(0xC8EA87E, 27);
    StepUnrolled(0x2924984C, 26);
    StepUnrolled(0x102672D3, 25);
    StepUnrolled(0x398C69A4, 24);
    RunEight(0x3BE80E6A, [31, 30, 29, 28, 27, 26, 25, 24]);
  }

  lemma Block1Run()
    ensures Run(0x387A7C0C, [23, 22, 21, 20, 19, 18, 17, 16]) == 0x351F9F3
  {
    hide Step, Run;
    StepUnrolled(0x387A7C0C, 23);
    StepUnrolled(0x6B8C903, 22);
    StepUnrolled(0xA23F9A9, 21);
    StepUnrolled(0x21B47B7D, 20);
    StepUnrolled(0x1C9B0D07, 19);
    StepUnrolled(0x16D204B9, 18);
    StepUnrolled(0x3A387D30, 17);
    StepUnrolled(0x3592B937, 16);
    RunEight(0x387A7C0C, [23, 22, 21, 20, 19, 18, 17, 16]);
  }

  lemma Block2Run()
    ensures Run(0x351F9F3, [15, 14, 13, 12, 11, 10, 9, 8]) == 0x160E43BA
  {
    hide Step, Run;
    StepUnrolled(0x351F9F3, 15);
    StepUnrolled(0x115569DD, 14);
    StepUnrolled(0x17EF0873, 13);
    StepUnrolled(0x1D99E46F, 12);
    StepUnrolled(0x368F29A6, 11);
    StepUnrolled(0x1B89BC7A, 10);
    StepUnrolled(0x29BEF2DF, 9);
    StepUnrolled(0x36B20A0, 8);
    RunEight(0x351F9F3, [15, 14, 13, 12, 11, 10, 9, 8]);
  }

  lemma Block3Run()
    ensures Run(0x160E43BA, [7, 6, 5, 4, 3, 2, 1, 0]) == 0xCD42356
  {
    hide Step, Run;
    StepUnrolled(0x160E43BA, 7);
    StepUnrolled(0x21B09D45, 6);
    StepUnrolled(0x1C07CA15, 5);
    StepUnrolled(0x54AE6EF, 4);
    StepUnrolled(0xF0C5389, 3);
    StepUnrolled(0x2211B106, 2);
    StepUnrolled(0x134815C3, 1);
    StepUnrolled(0x2F2ADC0E, 0);
    RunEight(0x160E43BA, [7, 6, 5, 4, 3, 2, 1, 0]);
  }

  lemma ZerosRun()
    ensures Run(0xCD42356, [0, 0, 0, 0, 0, 0]) == 0x2F10BC25
  {
    hide Step, Run;
    StepUnrolled(0xCD42356, 0);
    StepUnrolled(0x2275FD57, 0);
    StepUnrolled(0x1FC19FE1, 0);
    StepUnrolled(0x6EA0FD8, 0);
    StepUnrolled(0x7B22DF, 0);
    StepUnrolled(0xF645BE0, 0);
    RunUnrolled(0xCD42356, [0, 0, 0, 0, 0, 0]);
  }

  lemma UpperHalf0()
    ensures Words([31, 30, 29, 28]) == [31, 30, 29, 28]
  {
    hide Word;
    Words28To31();
  }

  lemma LowerHalf0()
    ensures Words([27, 26, 25, 24]) == [27, 26, 25, 24]
  {
    hide Word;
    Words24To27();
  }

  lemma Block0Words()
    ensures Words(Countdown(31)) == [31, 30, 29, 28, 27, 26, 25, 24]
  {
    hide Text, Words;
    UpperHalf0();
    LowerHalf0();
    WordsConcat([31, 30, 29, 28], [27, 26, 25, 24]);
    assert [31, 30, 29, 28] + [27, 26, 25, 24] == Countdown(31);
  }

  lemma Block0Text()
    ensures Text(Countdown(31)) == "l7aum6ec"
  {
    hide Words;
  }

  lemma UpperHalf1()
    ensures Words([23, 22, 21, 20]) == [23, 22, 21, 20]
  {
    hide Word;
    Words20To23();
  }

  lemma LowerHalf1()
    ensures Words([19, 18, 17, 16]) == [19, 18, 17, 16]
  {
    hide Word;
    Words16To19();
  }

  lemma Block1Words()
    ensures Words(Countdown(23)) == [23, 22, 21, 20, 19, 18, 17, 16]
  {
    hide Text, Words;
    UpperHalf1();
    LowerHalf1();
    WordsConcat([23, 22, 21, 20], [19, 18, 17, 16]);
    assert [23, 22, 21, 20] + [19, 18, 17, 16] == Countdown(23);
  }

  lemma Block1Text()
    ensures Text(Countdown(23)) == "hk45nj3s"
  {
    hide Words;
  }

  lemma UpperHalf2()
    ensures Words([15, 14, 13, 12]) == [15, 14, 13, 12]
  {
    hide Word;
    Words12To15();
  }

  lemma LowerHalf2()
    ensures Words([11, 10, 9, 8]) == [11, 10, 9, 8]
  {
    hide Word;
    Words8To11();
  }

  lemma Block2Words()
    ensures Words(Countdown(15)) == [15, 14, 13, 12, 11, 10, 9, 8]
  {
    hide Text, Words;
    UpperHalf2();
    LowerHalf2();
    WordsConcat([15, 14, 13, 12], [11, 10, 9, 8]);
    assert [15, 14, 13, 12] + [11, 10, 9, 8] == Countdown(15);
  }

  lemma Block2Text()
    ensures Text(Countdown(15)) == "0wdvt2fg"
  {
    hide Words;
  }

  lemma UpperHalf3()
    ensures Words([7, 6, 5, 4]) == [7, 6, 5, 4]
  {
    hide Word;
    Words4To7();
  }

  lemma LowerHalf3()
    ensures Words([3, 2, 1, 0]) == [3, 2, 1, 0]
  {
    hide Word;
    Words0To3();
  }

  lemma Block3Words()
    ensures Words(Countdown(7)) == [7, 6, 5, 4, 3, 2, 1, 0]
  {
    hide Text, Words;
    UpperHalf3();
    LowerHalf3();
    WordsConcat([7, 6, 5, 4], [3, 2, 1, 0]);
    assert [7, 6, 5, 4] + [3, 2, 1, 0] == Countdown(7);
  }

  lemma Block3Text()
    ensures Text(Countdown(7)) == "8x9yrzpq"
  {
    hide Words;
  }

  lemma FiveBytes(a: byte, b: byte, c: byte, d: byte, e: byte)
    ensures Value([a, b, c, d, e], 256) == (((a * 256 + b) * 256 + c) * 256 + d) * 256 + e
  {
    hide Value;
    EmptyValue(256);
    ValueSnoc([], a, 256);
    ValueSnoc([a], b, 256);
    ValueSnoc([a, b], c, 256);
    ValueSnoc([a, b, c], d, 256);
    ValueSnoc([a, b, c, d], e, 256);
    assert [] + [a] == [a] && [a] + [b] == [a, b] && [a, b] + [c] == [a, b, c];
    assert [a, b, c] + [d] == [a, b, c, d] && [a, b, c, d] + [e] == [a, b, c, d, e];
  }

  lemma EmptyValue(base: nat)
    ensures Value([], base) == 0
  {
  }

  lemma CountdownValue(h: int)
    requires 7 <= h < 32
    ensures Value(Countdown(h), 32) == h * 35468117025 - 1144132807
  {
    hide Value;
    var s := Countdown(h);
    EmptyValue(32);
    forall n | 0 <= n < 8 ensures Value(s[..n + 1], 32) == Value(s[..n], 32) * 32 + h - n {
      assert s[..n + 1] == s[..n] + [s[n]];
      ValueSnoc(s[..n], s[n], 32);
    }
    assert s[..0] == [] && s[..8] == s;
    assert Value(s[..0 + 1], 32) == h && Value(s[..1 + 1], 32) == h * 33 - 1;
    assert Value(s[..2 + 1], 32) == (h * 33 - 1) * 32 + h - 2;
    assert Value(s[..3 + 1], 32) == Value(s[..3], 32) * 32 + h - 3;
    assert Value(s[..4 + 1], 32) == Value(s[..4], 32) * 32 + h - 4;
    assert Value(s[..5 + 1], 32) == Value(s[..5], 32) * 32 + h - 5;
    assert Value(s[..6 + 1], 32) == Value(s[..6], 32) * 32 + h - 6;
    assert Value(s[..7 + 1], 32) == Value(s[..7], 32) * 32 + h - 7;
  }

  lemma Block(a: byte, b: byte, c: byte, d: byte, e: byte, h: int)
    requires 7 <= h < 32 && (((a * 256 + b) * 256 + c) * 256 + d) * 256 + e == h * 35468117025 - 1144132807
    ensures Regrouped([a, b, c, d, e]) == Countdown(h)
  {
    hide Regrouped, Value, Pow;
    FiveBytes(a, b, c, d, e);
    RegroupedValue([a, b, c, d, e]);
    PowOfZero(Value([a, b, c, d, e], 256));
    CountdownValue(h);
    ValueUnique(Regrouped([a, b, c, d, e]), Countdown(h), 32);
  }

  const BYTES: seq<byte> :=
    [255, 187, 205, 235, 56, 189, 171, 73, 202, 48, 123, 154, 197, 169, 40, 57, 138, 65, 136, 32]

  ghost function AllSymbols(): seq<symbol> {
    Countdown(31) + (Countdown(23) + (Countdown(15) + Countdown(7)))
  }

  lemma BytesRegrouped()
    ensures Regrouped(BYTES) == AllSymbols()
  {
    hide Regrouped, Countdown;
    var a: seq<byte>, b: seq<byte> := [255, 187, 205, 235, 56], [189, 171, 73, 202, 48];
    var c: seq<byte>, d: seq<byte> := [123, 154, 197, 169, 40], [57, 138, 65, 136, 32];
    Block(255, 187, 205, 235, 56, 31);
    Block(189, 171, 73, 202, 48, 23);
    Block(123, 154, 197, 169, 40, 15);
    Block(57, 138, 65, 136, 32, 7);
    RegroupedBlocks(c, d);
    RegroupedBlocks(b, c + d);
    RegroupedBlocks(a, b + (c + d));
    assert a + (b + (c + d)) == BYTES;
  }

  lemma WordsConcat(xs: seq<symbol>, ys: seq<symbol>)
    ensures Words(xs + ys) == Words(xs) + Words(ys) && Text(xs + ys) == Text(xs) + Text(ys)
  {
  }

  lemma ExpandedAbcdef()
    ensures Expanded("abcdef") == [3, 3, 3, 3, 3, 3, 0, 1] + [2, 3, 4, 5, 6]
  {
    hide Expanded, Word;
    var hrp := "abcdef";
    Codes(hrp);
    Words4To7();
    Words0To3();
    assert |Expanded(hrp)| == 13 && Expanded(hrp)[6] == 0 by {
      ExpandedShape(hrp, 0);
    }
    ExpandedShape(hrp, 0);
    ExpandedShape(hrp, 1);
    ExpandedShape(hrp, 2);
    ExpandedShape(hrp, 3);
    ExpandedShape(hrp, 4);
    ExpandedShape(hrp, 5);
    assert hrp[1] as int % 32 == 2 && hrp[2] as int % 32 == 3 && hrp[3] as int % 32 == 4;
    assert hrp[4] as int % 32 == 5 && hrp[5] as int % 32 == 6;
  }

  lemma Codes(hrp: string)
    requires hrp == "abcdef"
    ensures forall i :: 0 <= i < 6 ==> hrp[i] as int / 32 == 3 && hrp[i] as int % 32 == i + 1
  {
    assert hrp[0] as int == 97 && hrp[1] as int == 98 && hrp[2] as int == 99;
    assert hrp[3] as int == 100 && hrp[4] as int == 101 && hrp[5] as int == 102;
  }

  /** The register after the human-readable part, the four blocks and six zeros. */
  lemma RegisterAtEnd()
    ensures Run(1, Expanded("abcdef") + Words(AllSymbols()) + SIX_ZEROS) == 0x2F10BC25
  {
    hide Run, Expanded, Words, Countdown, Text;
    var p, q, r, s := Words(Countdown(31)), Words(Countdown(23)), Words(Countdown(15)), Words(Countdown(7));
    WordsConcat(Countdown(15), Countdown(7));
    WordsConcat(Countdown(23), Countdown(15) + Countdown(7));
    WordsConcat(Countdown(31), Countdown(23) + (Countdown(15) + Countdown(7)));
    ExpandedAbcdef();
    HighBits();
    LowBits();
    Block0Run();
    Block1Run();
    Block2Run();
    Block3Run();
    ZerosRun();
    Block0Words();
    Block1Words();
    Block2Words();
    Block3Words();
    RunConcat(1, Expanded("abcdef") + (p + (q + (r + s))), SIX_ZEROS);
    RunConcat(1, Expanded("abcdef"), p + (q + (r + s)));
    RunConcat(1, [3, 3, 3, 3, 3, 3, 0, 1], [2, 3, 4, 5, 6]);
    RunConcat(0x3BE80E6A, p, q + (r + s));
    RunConcat(0x387A7C0C, q, r + s);
    RunConcat(0x351F9F3, r, s);
  }

  lemma TagAbcdef()
    ensures Tag("abcdef", AllSymbols()) == [2, 13, 17, 3, 4, 6]
  {
    hide Run, Expanded, Words, AllSymbols;
    RegisterAtEnd();
    assert Xor(0x2F10BC25, BECH32M_CONST) == 0x4D88C86;
    assert Unpack(0x4D88C86) == [2, 13, 17, 3, 4, 6];
    ChecksumVerifies(Expanded("abcdef") + Words(AllSymbols()));
    assert Indices([2, 13, 17, 3, 4, 6]) == [2, 13, 17, 3, 4, 6];
  }

  lemma TagText()
    ensures Text([2, 13, 17, 3, 4, 6]) == "zd3ryx"
  {
  }

  lemma Spelling()
    ensures "l7aum6ec" + ("hk45nj3s" + ("0wdvt2fg" + "8x9yrzpq")) == "l7aum6echk45nj3s0wdvt2fg8x9yrzpq"
  {
  }

  lemma AllSymbolsText()
    ensures Text(AllSymbols()) == "l7aum6echk45nj3s0wdvt2fg8x9yrzpq"
  {
    hide Text, Countdown, Words;
    WordsConcat(Countdown(15), Countdown(7));
    WordsConcat(Countdown(23), Countdown(15) + Countdown(7));
    WordsConcat(Countdown(31), Countdown(23) + (Countdown(15) + Countdown(7)));
    Block0Text();
    Block1Text();
    Block2Text();
    Block3Text();
    Spelling();
  }

  /** The BIP 350 test vector that uses every symbol. */
  lemma Bip350AllSymbols()
    ensures Encoded("abcdef", BYTES) == "abcdef1" + ("l7aum6echk45nj3s0wdvt2fg8x9yrzpq" + "zd3ryx")
  {
    hide Tag, Regrouped, Text, Words, AllSymbols;
    BytesRegrouped();
    TagAbcdef();
    TagText();
    AllSymbolsText();
    var checksum: seq<symbol> := [2, 13, 17, 3, 4, 6];
    WordsConcat(AllSymbols(), checksum);
    assert "abcdef" + "1" == "abcdef1";
  }
}
