/** The shortest valid strings of BIP-173 and BIP-350: prefix "a", no data, either checksum. */
module KnownStrings {
  import opened Wrappers
  import opened Bits
  import opened Polymod
  import opened SymbolField
  import Bech32

  lemma StepOf(s5: Five, r: Six, feedback: Six)
    requires r.s5 == s5 && Scaled(s5, GENERATOR) == feedback
    ensures Step(r) == Sum(Six(r.s4, r.s3, r.s2, r.s1, r.s0, NIL), feedback)
  {
    hide Scaled, Sum;
  }

  /** What feeding back the symbols that occur amounts to. */
  lemma ScaledByNone(r: Six)
    ensures Scaled(NIL, r) == OfSymbols(0, 0, 0, 0, 0, 0)
  {
    hide Number, Sum, Doubled, OfSymbols, Chosen;
    var r1 := Doubled(r);
    var r2 := Doubled(r1);
    var r3 := Doubled(r2);
    ScaledIsSum(NIL, r);
    NothingChosen(r);
    NothingChosen(r1);
    NothingChosen(r2);
    NothingChosen(r3);
    NothingChosen(Doubled(r3));
    SumZero(OfSymbols(0, 0, 0, 0, 0, 0));
  }

  lemma ScaledByOne(r: Six)
    ensures Scaled(Symbol(1), r) == r
  {
    hide Number, Sum, Doubled, OfSymbols, Chosen;
    var r1 := Doubled(r);
    var r2 := Doubled(r1);
    var r3 := Doubled(r2);
    OneBits();
    ScaledIsSum(Symbol(1), r);
    ChosenIs(r);
    NothingChosen(r1);
    NothingChosen(r2);
    NothingChosen(r3);
    NothingChosen(Doubled(r3));
    SumZero(r);
    SumZero(OfSymbols(0, 0, 0, 0, 0, 0));
  }

  lemma OneBits()
    ensures Symbol(1) == Five(false, false, false, false, true)
  {
    hide Number;
  }

  lemma NothingChosen(r: Six)
    ensures Chosen(false, r) == OfSymbols(0, 0, 0, 0, 0, 0)
  {
    hide Number;
  }

  lemma SumZero(r: Six)
    ensures Sum(r, OfSymbols(0, 0, 0, 0, 0, 0)) == r && Sum(OfSymbols(0, 0, 0, 0, 0, 0), r) == r
  {
    hide Number;
  }

  lemma FeedbackOfThirty()
    ensures Scaled(Symbol(30), GENERATOR) == OfSymbols(23, 26, 15, 17, 23, 25)
  {
    hide Number, Sum, Doubled, OfSymbols, Chosen;
    FirstDoubles();
    LastDoubles();
    ScaledIsSum(Symbol(30), GENERATOR);
    ThirtyBits();
    ChosenIs(GENERATOR);
    ChosenIs(OfSymbols(19, 5, 1, 3, 19, 13));
    ChosenIs(OfSymbols(15, 10, 2, 6, 15, 26));
    ChosenIs(OfSymbols(30, 20, 4, 12, 30, 29));
    ChosenIs(OfSymbols(21, 1, 8, 24, 21, 19));
    SumThirty();
    SumZero(OfSymbols(23, 26, 15, 17, 23, 25));
  }

  lemma ThirtyBits()
    ensures Symbol(30) == Five(true, true, true, true, false) && Symbol(18) == Five(true, false, false, true, false)
  {
    hide Number;
  }

  lemma ChosenIs(r: Six)
    ensures Chosen(true, r) == r && Chosen(false, r) == OfSymbols(0, 0, 0, 0, 0, 0)
  {
    NothingChosen(r);
  }

  lemma SumThirty()
    ensures Sum(OfSymbols(30, 20, 4, 12, 30, 29), OfSymbols(21, 1, 8, 24, 21, 19)) == OfSymbols(11, 21, 12, 20, 11, 14)
    ensures Sum(OfSymbols(15, 10, 2, 6, 15, 26), OfSymbols(11, 21, 12, 20, 11, 14)) == OfSymbols(4, 31, 14, 18, 4, 20)
    ensures Sum(OfSymbols(19, 5, 1, 3, 19, 13), OfSymbols(4, 31, 14, 18, 4, 20)) == OfSymbols(23, 26, 15, 17, 23, 25)
  {
    hide Number;
  }

  lemma FeedbackOfEighteen()
    ensures Scaled(Symbol(18), GENERATOR) == OfSymbols(6, 4, 9, 27, 6, 30)
  {
    hide Number, Sum, Doubled, OfSymbols, Chosen;
    FirstDoubles();
    LastDoubles();
    ScaledIsSum(Symbol(18), GENERATOR);
    ThirtyBits();
    ChosenIs(GENERATOR);
    ChosenIs(OfSymbols(19, 5, 1, 3, 19, 13));
    ChosenIs(OfSymbols(15, 10, 2, 6, 15, 26));
    ChosenIs(OfSymbols(30, 20, 4, 12, 30, 29));
    ChosenIs(OfSymbols(21, 1, 8, 24, 21, 19));
    SumEighteen();
    SumZero(OfSymbols(21, 1, 8, 24, 21, 19));
    SumZero(OfSymbols(6, 4, 9, 27, 6, 30));
  }

  lemma SumEighteen()
    ensures Sum(OfSymbols(19, 5, 1, 3, 19, 13), OfSymbols(21, 1, 8, 24, 21, 19)) == OfSymbols(6, 4, 9, 27, 6, 30)
  {
    hide Number;
  }

  lemma Step1()
    ensures PolymodStep(0x8c01) == 0x118020
  {
    hide Number, Sum, Scaled, OfSymbols, Word, Step;
    ScaledByNone(GENERATOR);
    Shifted1();
    StepOf(NIL, OfSymbols(0, 0, 1, 3, 0, 1), OfSymbols(0, 0, 0, 0, 0, 0));
    PolymodIsDivision(OfSymbols(0, 0, 1, 3, 0, 1));
    WordOf(0, 0, 1, 3, 0, 1);
    WordOf(0, 1, 3, 0, 1, 0);
  }

  lemma Shifted1()
    ensures var r := OfSymbols(0, 0, 1, 3, 0, 1);
      r.s5 == NIL
      && Sum(Six(r.s4, r.s3, r.s2, r.s1, r.s0, NIL), OfSymbols(0, 0, 0, 0, 0, 0))
         == OfSymbols(0, 1, 3, 0, 1, 0)
  {
    hide Number;
  }

  lemma Step2()
    ensures PolymodStep(0x118020) == 0x2300400
  {
    hide Number, Sum, Scaled, OfSymbols, Word, Step;
    ScaledByNone(GENERATOR);
    Shifted2();
    StepOf(NIL, OfSymbols(0, 1, 3, 0, 1, 0), OfSymbols(0, 0, 0, 0, 0, 0));
    PolymodIsDivision(OfSymbols(0, 1, 3, 0, 1, 0));
    WordOf(0, 1, 3, 0, 1, 0);
    WordOf(1, 3, 0, 1, 0, 0);
  }

  lemma Shifted2()
    ensures var r := OfSymbols(0, 1, 3, 0, 1, 0);
      r.s5 == NIL
      && Sum(Six(r.s4, r.s3, r.s2, r.s1, r.s0, NIL), OfSymbols(0, 0, 0, 0, 0, 0))
         == OfSymbols(1, 3, 0, 1, 0, 0)
  {
    hide Number;
  }

  lemma Step3()
    ensures PolymodStep(0x2300400) == 0x3d6ad7b2
  {
    hide Number, Sum, Scaled, OfSymbols, Word, Step;
    ScaledByOne(GENERATOR);
    Shifted3();
    StepOf(Symbol(1), OfSymbols(1, 3, 0, 1, 0, 0), GENERATOR);
    PolymodIsDivision(OfSymbols(1, 3, 0, 1, 0, 0));
    WordOf(1, 3, 0, 1, 0, 0);
    WordOf(30, 22, 21, 21, 29, 18);
  }

  lemma Shifted3()
    ensures var r := OfSymbols(1, 3, 0, 1, 0, 0);
      r.s5 == Symbol(1)
      && Sum(Six(r.s4, r.s3, r.s2, r.s1, r.s0, NIL), GENERATOR)
         == OfSymbols(30, 22, 21, 21, 29, 18)
  {
    hide Number;
  }

  lemma Step4()
    ensures PolymodStep(0x3d6ad7b2) == 0x2fd30b9
  {
    hide Number, Sum, Scaled, OfSymbols, Word, Step;
    FeedbackOfThirty();
    Shifted4();
    StepOf(Symbol(30), OfSymbols(30, 22, 21, 21, 29, 18), OfSymbols(23, 26, 15, 17, 23, 25));
    PolymodIsDivision(OfSymbols(30, 22, 21, 21, 29, 18));
    WordOf(30, 22, 21, 21, 29, 18);
    WordOf(1, 15, 26, 12, 5, 25);
  }

  lemma Shifted4()
    ensures var r := OfSymbols(30, 22, 21, 21, 29, 18);
      r.s5 == Symbol(30)
      && Sum(Six(r.s4, r.s3, r.s2, r.s1, r.s0, NIL), OfSymbols(23, 26, 15, 17, 23, 25))
         == OfSymbols(1, 15, 26, 12, 5, 25)
  {
    hide Number;
  }

  lemma Step5()
    ensures PolymodStep(0x2fd30b9) == 0x24cc4092
  {
    hide Number, Sum, Scaled, OfSymbols, Word, Step;
    ScaledByOne(GENERATOR);
    Shifted5();
    StepOf(Symbol(1), OfSymbols(1, 15, 26, 12, 5, 25), GENERATOR);
    PolymodIsDivision(OfSymbols(1, 15, 26, 12, 5, 25));
    WordOf(1, 15, 26, 12, 5, 25);
    WordOf(18, 12, 24, 16, 4, 18);
  }

  lemma Shifted5()
    ensures var r := OfSymbols(1, 15, 26, 12, 5, 25);
      r.s5 == Symbol(1)
      && Sum(Six(r.s4, r.s3, r.s2, r.s1, r.s0, NIL), GENERATOR)
         == OfSymbols(18, 12, 24, 16, 4, 18)
  {
    hide Number;
  }

  lemma Step6()
    ensures PolymodStep(0x24cc4092) == 0x15ccfe9e
  {
    hide Number, Sum, Scaled, OfSymbols, Word, Step;
    FeedbackOfEighteen();
    Shifted6();
    StepOf(Symbol(18), OfSymbols(18, 12, 24, 16, 4, 18), OfSymbols(6, 4, 9, 27, 6, 30));
    PolymodIsDivision(OfSymbols(18, 12, 24, 16, 4, 18));
    WordOf(18, 12, 24, 16, 4, 18);
    WordOf(10, 28, 25, 31, 20, 30);
  }

  lemma Shifted6()
    ensures var r := OfSymbols(18, 12, 24, 16, 4, 18);
      r.s5 == Symbol(18)
      && Sum(Six(r.s4, r.s3, r.s2, r.s1, r.s0, NIL), OfSymbols(6, 4, 9, 27, 6, 30))
         == OfSymbols(10, 28, 25, 31, 20, 30)
  {
    hide Number;
  }

  /** Six zero symbols behind the prefix. */
  lemma PrefixRegister()
    ensures Bech32.HrpExpand("a") == [3, 0, 1] && Bech32.Register("a", []) == 0x8c01
    ensures Fold(0x8c01, Zeros(6)) == 0x15ccfe9e
  {
    hide Xor, PolymodStep, Bech32.HrpExpand;
    ExpandA();
    FirstThree();
    assert [3, 0, 1] + [] == [3, 0, 1];
    ZerosStep(0x8c01, 0);
    ZerosStep(0x8c01, 1);
    ZerosStep(0x8c01, 2);
    ZerosStep(0x8c01, 3);
    ZerosStep(0x8c01, 4);
    ZerosStep(0x8c01, 5);
    assert Zeros(0) == [];
    Step1();
    Step2();
    Step3();
    Step4();
    Step5();
    Step6();
  }

  lemma ExpandA()
    ensures Bech32.HrpExpand("a") == [3, 0, 1]
  {
    assert Bech32.HighBits("a") == [3] && Bech32.LowBits("a") == [1];
  }

  lemma ZerosStep(chk: nat, n: nat)
    ensures Fold(chk, Zeros(n + 1)) == PolymodStep(Fold(chk, Zeros(n)))
  {
    hide Xor, PolymodStep;
    assert Zeros(n + 1)[..n] == Zeros(n);
    XorZero(PolymodStep(Fold(chk, Zeros(n))));
  }

  lemma FirstThree()
    ensures Fold(1, [3, 0, 1]) == 0x8c01
  {
    hide Xor, PolymodStep;
    assert [3, 0, 1][..2] == [3, 0] && [3, 0][..1] == [3] && [3][..0] == [];
    assert Fold(1, []) == 1;
    PolymodLow(1);
    XorAt5(1, 0, 0, 3);
    XorZero(1);
    XorZero(3);
    PolymodLow(35);
    XorZero(1120);
    PolymodLow(1120);
    XorAt5(1120, 0, 0, 1);
  }

  lemma PlainCheck()
    ensures Xor(0x15ccfe9e, 0x1) == 0x15ccfe9f
  {
    hide Xor, Number, Sum, OfSymbols, Word;
    PlainCheckSymbols();
    XorWord(OfSymbols(10, 28, 25, 31, 20, 30), OfSymbols(0, 0, 0, 0, 0, 1));
    WordOf(10, 28, 25, 31, 20, 30);
    WordOf(0, 0, 0, 0, 0, 1);
    WordOf(10, 28, 25, 31, 20, 31);
  }

  lemma PlainCheckSymbols()
    ensures Sum(OfSymbols(10, 28, 25, 31, 20, 30), OfSymbols(0, 0, 0, 0, 0, 1)) == OfSymbols(10, 28, 25, 31, 20, 31)
  {
    hide Number;
  }

  lemma NewCheck()
    ensures Xor(0x15ccfe9e, 0x2bc830a3) == 0x3e04ce3d
  {
    hide Xor, Number, Sum, OfSymbols, Word;
    NewCheckSymbols();
    XorWord(OfSymbols(10, 28, 25, 31, 20, 30), OfSymbols(21, 28, 16, 12, 5, 3));
    WordOf(10, 28, 25, 31, 20, 30);
    WordOf(21, 28, 16, 12, 5, 3);
    WordOf(31, 0, 9, 19, 17, 29);
  }

  lemma NewCheckSymbols()
    ensures Sum(OfSymbols(10, 28, 25, 31, 20, 30), OfSymbols(21, 28, 16, 12, 5, 3)) == OfSymbols(31, 0, 9, 19, 17, 29)
  {
    hide Number;
  }

  lemma PlainDigits()
    ensures CheckDigits(0x15ccfe9f) == [10, 28, 25, 31, 20, 31]
  {
  }

  lemma NewDigits()
    ensures CheckDigits(0x3e04ce3d) == [31, 0, 9, 19, 17, 29]
  {
  }

  lemma PlainText()
    ensures Checksum(0x8c01, Plain) == [10, 28, 25, 31, 20, 31] && Bech32.Text("a", [], Plain) == "a1" + "2uel5l"
  {
    hide Xor, Fold, Bech32.CharOf, Bech32.Register, CheckDigits;
    PrefixRegister();
    PlainCheck();
    PlainDigits();
    assert [] + Checksum(0x8c01, Plain) == [10, 28, 25, 31, 20, 31];
    PlainTextChars();
  }

  lemma PlainTextChars()
    ensures Bech32.Chars([10, 28, 25, 31, 20, 31]) == "2uel5l"
  {
    var vs := [10, 28, 25, 31, 20, 31];
    assert Bech32.Chars(vs) == [Bech32.CharOf(vs[0]), Bech32.CharOf(vs[1]), Bech32.CharOf(vs[2]), Bech32.CharOf(vs[3]),
                                Bech32.CharOf(vs[4]), Bech32.CharOf(vs[5])];
  }

  lemma NewText()
    ensures Checksum(0x8c01, M) == [31, 0, 9, 19, 17, 29] && Bech32.Text("a", [], M) == "a1" + "lqfn3a"
  {
    hide Xor, Fold, Bech32.CharOf, Bech32.Register, CheckDigits;
    PrefixRegister();
    NewCheck();
    NewDigits();
    assert [] + Checksum(0x8c01, M) == [31, 0, 9, 19, 17, 29];
    NewTextChars();
  }

  lemma NewTextChars()
    ensures Bech32.Chars([31, 0, 9, 19, 17, 29]) == "lqfn3a"
  {
    var vs := [31, 0, 9, 19, 17, 29];
    assert Bech32.Chars(vs) == [Bech32.CharOf(vs[0]), Bech32.CharOf(vs[1]), Bech32.CharOf(vs[2]), Bech32.CharOf(vs[3]),
                                Bech32.CharOf(vs[4]), Bech32.CharOf(vs[5])];
  }

  lemma EncodableA()
    ensures Bech32.Encodable("a", [])
  {
  }

  /** What the encoder writes for the prefix "a" is what the decoder takes back. */
  lemma TakenBack(enc: Encoding, t: string)
    requires Bech32.Text("a", [], enc) == t
    ensures Bech32.Decode(t) == Some(Bech32.Decoded(enc, "a", []))
  {
    hide Bech32.Text, Bech32.Decode, Bech32.Encodable;
    EncodableA();
    Bech32.EncodeDecode("a", [], enc);
  }

  lemma ShortestPlain(t: string)
    requires t == "a12uel5l"
    ensures Bech32.Text("a", [], Plain) == t && Bech32.Decode(t) == Some(Bech32.Decoded(Plain, "a", []))
  {
    hide Bech32.Text, Bech32.Decode, Checksum;
    PlainText();
    assert t == "a1" + "2uel5l";
    TakenBack(Plain, t);
  }

  lemma ShortestNew(t: string)
    requires t == "a1lqfn3a"
    ensures Bech32.Text("a", [], M) == t && Bech32.Decode(t) == Some(Bech32.Decoded(M, "a", []))
  {
    hide Bech32.Text, Bech32.Decode, Checksum;
    NewText();
    assert t == "a1" + "lqfn3a";
    TakenBack(M, t);
  }

  lemma OldVector(t: string)
    requires t == "A12UEL5L"
    ensures Bech32.Lower(t) == "a12uel5l" && Bech32.NoLower(t)
  {
    var u := Bech32.Lower(t);
    assert u == [u[0], u[1], u[2], u[3], u[4], u[5], u[6], u[7]];
  }

  lemma NewVector(t: string)
    requires t == "A1LQFN3A"
    ensures Bech32.Lower(t) == "a1lqfn3a" && Bech32.NoLower(t)
  {
    var u := Bech32.Lower(t);
    assert u == [u[0], u[1], u[2], u[3], u[4], u[5], u[6], u[7]];
  }

  /** The test vectors "A12UEL5L" of BIP-173 and "A1LQFN3A" of BIP-350 are what the decoder takes and, in lower case,
      what the encoder writes. */
  lemma ShortestStrings(plain: string, modified: string)
    requires plain == "A12UEL5L" && modified == "A1LQFN3A"
    ensures Bech32.Text("a", [], Plain) == Bech32.Lower(plain) && Bech32.Text("a", [], M) == Bech32.Lower(modified)
    ensures Bech32.Decode(plain) == Some(Bech32.Decoded(Plain, "a", []))
    ensures Bech32.Decode(modified) == Some(Bech32.Decoded(M, "a", []))
  {
    hide Bech32.Text, Bech32.Decode, Bech32.Lower, Bech32.NoLower, Bech32.NoUpper;
    OldVector(plain);
    NewVector(modified);
    ShortestPlain(Bech32.Lower(plain));
    ShortestNew(Bech32.Lower(modified));
    Bech32.CaseIgnored(plain);
    Bech32.CaseIgnored(modified);
  }
}
