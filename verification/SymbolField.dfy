/** The checksum register as six symbols of the field with 32 elements, the residues modulo x^5 + x^3 + 1 that
    BIP-173 (section "Bech32") computes with. */
module SymbolField {
  import opened Bits
  import opened Polymod

  /** A symbol, highest bit first. */
  datatype Five = Five(b4: bool, b3: bool, b2: bool, b1: bool, b0: bool)

  datatype Six = Six(s5: Five, s4: Five, s3: Five, s2: Five, s1: Five, s0: Five)

  function Bit(b: bool): nat {
    if b then 1 else 0
  }

  function Number(f: Five): (n: nat)
    ensures n < 32
  {
    2 * (2 * (2 * (2 * Bit(f.b4) + Bit(f.b3)) + Bit(f.b2)) + Bit(f.b1)) + Bit(f.b0)
  }

  function Symbol(n: nat): (f: Five)
    requires n < 32
    ensures Number(f) == n
  {
    var n3 := if n >= 16 then n - 16 else n;
    var n2 := if n3 >= 8 then n3 - 8 else n3;
    var n1 := if n2 >= 4 then n2 - 4 else n2;
    var n0 := if n1 >= 2 then n1 - 2 else n1;
    Five(n >= 16, n3 >= 8, n2 >= 4, n1 >= 2, n0 == 1)
  }

  /** The register's number. */
  function Word(r: Six): nat {
    ((((Number(r.s5) * 32 + Number(r.s4)) * 32 + Number(r.s3)) * 32 + Number(r.s2)) * 32 + Number(r.s1)) * 32
    + Number(r.s0)
  }

  const NIL: Five := Five(false, false, false, false, false)

  /** The sum of two field elements. */
  function Plus(a: Five, b: Five): Five {
    Five(a.b4 != b.b4, a.b3 != b.b3, a.b2 != b.b2, a.b1 != b.b1, a.b0 != b.b0)
  }

  /** Twice a field element: x times it, x^5 being x^3 + 1. */
  function Twice(a: Five): Five {
    Five(a.b3, a.b2 != a.b4, a.b1, a.b0, a.b4)
  }

  /** The product of field elements, bit by bit of the first. */
  function Times(a: Five, b: Five): Five {
    var b2 := Twice(b);
    var b4 := Twice(b2);
    var b8 := Twice(b4);
    Plus(If(a.b0, b), Plus(If(a.b1, b2), Plus(If(a.b2, b4), Plus(If(a.b3, b8), If(a.b4, Twice(b8))))))
  }

  function If(c: bool, a: Five): Five {
    if c then a else NIL
  }

  function Sum(r: Six, t: Six): Six {
    Six(Plus(r.s5, t.s5), Plus(r.s4, t.s4), Plus(r.s3, t.s3), Plus(r.s2, t.s2), Plus(r.s1, t.s1), Plus(r.s0, t.s0))
  }

  /** Every symbol times `a`. */
  function Scaled(a: Five, r: Six): Six {
    Six(Times(a, r.s5), Times(a, r.s4), Times(a, r.s3), Times(a, r.s2), Times(a, r.s1), Times(a, r.s0))
  }

  /** The generator polynomial of BIP-173 below x^6: {29}x^5 + {22}x^4 + {20}x^3 + {21}x^2 + {29}x + {18}. */
  const GENERATOR: Six := Six(Symbol(29), Symbol(22), Symbol(20), Symbol(21), Symbol(29), Symbol(18))

  /** One step: times x, the symbol that leaves being fed back through the generator. */
  function Step(r: Six): Six {
    Sum(Six(r.s4, r.s3, r.s2, r.s1, r.s0, NIL), Scaled(r.s5, GENERATOR))
  }

  lemma XorBit(a: nat, b: nat, x: bool, y: bool)
    ensures Xor(2 * a + Bit(x), 2 * b + Bit(y)) == 2 * Xor(a, b) + Bit(x != y)
  {
    hide Xor;
    XorHalf(a, b, Bit(x), Bit(y));
  }

  /** The `k`-th bit from the top. */
  function BitAt(a: Five, k: nat): bool
    requires 1 <= k <= 5
  {
    if k == 1 then a.b4 else if k == 2 then a.b3 else if k == 3 then a.b2 else if k == 4 then a.b1 else a.b0
  }

  /** The number of the top `k` bits. */
  function Top(a: Five, k: nat): nat
    requires k <= 5
    decreases k
  {
    if k == 0 then 0 else 2 * Top(a, k - 1) + Bit(BitAt(a, k))
  }

  lemma NumberIsTop(a: Five)
    ensures Number(a) == Top(a, 5)
  {
    assert Top(a, 2) == 2 * Bit(a.b4) + Bit(a.b3);
    assert Top(a, 4) == 2 * (2 * Top(a, 2) + Bit(a.b2)) + Bit(a.b1);
  }

  lemma PlusAt(a: Five, b: Five, k: nat)
    requires 1 <= k <= 5
    ensures BitAt(Plus(a, b), k) == (BitAt(a, k) != BitAt(b, k))
  {
  }

  lemma TopNone(a: Five)
    ensures Top(a, 0) == 0
  {
  }

  lemma XorTopStep(a: Five, b: Five, c: Five, k: nat)
    requires 1 <= k <= 5 && Xor(Top(a, k - 1), Top(b, k - 1)) == Top(c, k - 1)
    requires BitAt(c, k) == (BitAt(a, k) != BitAt(b, k))
    ensures Xor(Top(a, k), Top(b, k)) == Top(c, k)
  {
    hide Xor, BitAt, Bit, Top;
    TopStep(a, k);
    TopStep(b, k);
    TopStep(c, k);
    XorJoin(Top(a, k - 1), Top(b, k - 1), BitAt(a, k), BitAt(b, k), Top(a, k), Top(b, k));
  }

  lemma TopStep(a: Five, k: nat)
    requires 1 <= k <= 5
    ensures Top(a, k) == 2 * Top(a, k - 1) + Bit(BitAt(a, k))
  {
    hide BitAt, Bit;
  }

  lemma XorJoin(p: nat, q: nat, x: bool, y: bool, u: nat, v: nat)
    requires u == 2 * p + Bit(x) && v == 2 * q + Bit(y)
    ensures Xor(u, v) == 2 * Xor(p, q) + Bit(x != y)
  {
    hide Xor, Bit;
    XorBit(p, q, x, y);
  }

  lemma {:induction false} XorTop(a: Five, b: Five, k: nat)
    requires k <= 5
    ensures Xor(Top(a, k), Top(b, k)) == Top(Plus(a, b), k)
  {
    hide Xor, BitAt, Plus, Bit, Top;
    if k == 0 {
      XorSelf(0);
      TopNone(a);
      TopNone(b);
      TopNone(Plus(a, b));
    } else {
      XorTop(a, b, k - 1);
      PlusAt(a, b, k);
      XorTopStep(a, b, Plus(a, b), k);
    }
  }

  lemma XorFive(a: Five, b: Five)
    ensures Xor(Number(a), Number(b)) == Number(Plus(a, b))
  {
    hide Xor, Top, Number, Plus;
    NumberIsTop(a);
    NumberIsTop(b);
    NumberIsTop(Plus(a, b));
    XorTop(a, b, 5);
  }

  /** A symbol's number, its low bits taken off one by one. */
  lemma Halves(a: Five)
    ensures var x := Number(a);
      x % 2 == Bit(a.b0) && x / 2 % 2 == Bit(a.b1) && x / 4 % 2 == Bit(a.b2) && x / 8 % 2 == Bit(a.b3)
      && x / 16 % 2 == Bit(a.b4) && x / 16 / 2 == 0
      && x / 2 / 2 == x / 4 && x / 4 / 2 == x / 8 && x / 8 / 2 == x / 16
  {
    var x4 := Bit(a.b4);
    var x3 := 2 * x4 + Bit(a.b3);
    var x2 := 2 * x3 + Bit(a.b2);
    var x1 := 2 * x2 + Bit(a.b1);
    HalfOf(x1, a.b0);
    HalfOf(x2, a.b1);
    HalfOf(x3, a.b2);
    HalfOf(x4, a.b3);
    HalfOf(0, a.b4);
  }

  lemma HalfOf(h: nat, b: bool)
    ensures (2 * h + Bit(b)) % 2 == Bit(b) && (2 * h + Bit(b)) / 2 == h
  {
  }

  lemma XorWord(r: Six, t: Six)
    ensures Xor(Word(r), Word(t)) == Word(Sum(r, t))
  {
    hide Xor, Number, Plus;
    XorFive(r.s5, t.s5);
    XorFive(r.s4, t.s4);
    XorFive(r.s3, t.s3);
    XorFive(r.s2, t.s2);
    XorFive(r.s1, t.s1);
    XorFive(r.s0, t.s0);
    var a, b := Number(r.s5), Number(t.s5);
    XorAt5(a, b, Number(r.s4), Number(t.s4));
    a, b := a * 32 + Number(r.s4), b * 32 + Number(t.s4);
    XorAt5(a, b, Number(r.s3), Number(t.s3));
    a, b := a * 32 + Number(r.s3), b * 32 + Number(t.s3);
    XorAt5(a, b, Number(r.s2), Number(t.s2));
    a, b := a * 32 + Number(r.s2), b * 32 + Number(t.s2);
    XorAt5(a, b, Number(r.s1), Number(t.s1));
    a, b := a * 32 + Number(r.s1), b * 32 + Number(t.s1);
    XorAt5(a, b, Number(r.s0), Number(t.s0));
  }

  function Doubled(r: Six): Six {
    Six(Twice(r.s5), Twice(r.s4), Twice(r.s3), Twice(r.s2), Twice(r.s1), Twice(r.s0))
  }

  function Chosen(c: bool, r: Six): Six {
    if c then r else Six(NIL, NIL, NIL, NIL, NIL, NIL)
  }

  /** The register with these symbols. */
  function OfSymbols(s5: nat, s4: nat, s3: nat, s2: nat, s1: nat, s0: nat): Six
    requires s5 < 32 && s4 < 32 && s3 < 32 && s2 < 32 && s1 < 32 && s0 < 32
  {
    Six(Symbol(s5), Symbol(s4), Symbol(s3), Symbol(s2), Symbol(s1), Symbol(s0))
  }

  lemma WordOf(s5: nat, s4: nat, s3: nat, s2: nat, s1: nat, s0: nat)
    requires s5 < 32 && s4 < 32 && s3 < 32 && s2 < 32 && s1 < 32 && s0 < 32
    ensures Word(OfSymbols(s5, s4, s3, s2, s1, s0)) == ((((s5 * 32 + s4) * 32 + s3) * 32 + s2) * 32 + s1) * 32 + s0
  {
    hide Number, Symbol;
  }

  /** The constants of the code are the generator polynomial times 1, 2, 4, 8 and 16. */
  lemma GeneratorsDouble()
    ensures Word(GENERATOR) == GENERATORS[0]
    ensures Word(Doubled(GENERATOR)) == GENERATORS[1]
    ensures Word(Doubled(Doubled(GENERATOR))) == GENERATORS[2]
    ensures Word(Doubled(Doubled(Doubled(GENERATOR)))) == GENERATORS[3]
    ensures Word(Doubled(Doubled(Doubled(Doubled(GENERATOR))))) == GENERATORS[4]
  {
    hide Word, Doubled, OfSymbols, Symbol, Twice;
    FirstDoubles();
    LastDoubles();
    WordOf(29, 22, 20, 21, 29, 18);
    WordOf(19, 5, 1, 3, 19, 13);
    WordOf(15, 10, 2, 6, 15, 26);
    WordOf(30, 20, 4, 12, 30, 29);
    WordOf(21, 1, 8, 24, 21, 19);
  }

  lemma FirstDoubles()
    ensures GENERATOR == OfSymbols(29, 22, 20, 21, 29, 18)
    ensures Doubled(GENERATOR) == OfSymbols(19, 5, 1, 3, 19, 13)
    ensures Doubled(OfSymbols(19, 5, 1, 3, 19, 13)) == OfSymbols(15, 10, 2, 6, 15, 26)
  {
    hide Number;
  }

  lemma LastDoubles()
    ensures Doubled(OfSymbols(15, 10, 2, 6, 15, 26)) == OfSymbols(30, 20, 4, 12, 30, 29)
    ensures Doubled(OfSymbols(30, 20, 4, 12, 30, 29)) == OfSymbols(21, 1, 8, 24, 21, 19)
  {
    hide Number;
  }

  lemma ScaledIsSum(a: Five, r: Six)
    ensures Scaled(a, r)
         == Sum(Chosen(a.b0, r), Sum(Chosen(a.b1, Doubled(r)), Sum(Chosen(a.b2, Doubled(Doubled(r))),
            Sum(Chosen(a.b3, Doubled(Doubled(Doubled(r)))),
                Chosen(a.b4, Doubled(Doubled(Doubled(Doubled(r)))))))))
  {
    hide Twice, Plus;
  }

  lemma TapsStep(b: nat, gs: seq<nat>, c: bool, half: nat, g: Six, rest: Six)
    requires gs != [] && b % 2 == Bit(c) && b / 2 == half && gs[0] == Word(g) && Taps(half, gs[1..]) == Word(rest)
    ensures Taps(b, gs) == Word(Sum(Chosen(c, g), rest))
  {
    hide Xor, Sum, Chosen, Word;
    WordChosen(c, g);
    XorWord(Chosen(c, g), rest);
  }

  lemma WordChosen(c: bool, g: Six)
    ensures Word(Chosen(c, g)) == if c then Word(g) else 0
  {
    hide Number;
    NilIsZero();
  }

  lemma TapsAre(f: Five)
    ensures Taps(Number(f), GENERATORS) == Word(Scaled(f, GENERATOR))
  {
    hide Taps, Sum, Chosen, Doubled, Scaled, Word;
    var x, gs := Number(f), GENERATORS;
    GeneratorsDouble();
    Halves(f);
    var g1 := Doubled(GENERATOR);
    var g2 := Doubled(g1);
    var g3 := Doubled(g2);
    var g4 := Doubled(g3);
    NoTaps(gs[5..]);
    TapsLast(x / 16, gs[4..], f.b4, g4);
    assert gs[4..] == gs[3..][1..] && gs[3..] == gs[2..][1..] && gs[2..] == gs[1..][1..];
    TapsStep(x / 8, gs[3..], f.b3, x / 16, g3, Chosen(f.b4, g4));
    var t3 := Sum(Chosen(f.b3, g3), Chosen(f.b4, g4));
    TapsStep(x / 4, gs[2..], f.b2, x / 8, g2, t3);
    var t2 := Sum(Chosen(f.b2, g2), t3);
    TapsStep(x / 2, gs[1..], f.b1, x / 4, g1, t2);
    TapsStep(x, gs, f.b0, x / 2, GENERATOR, Sum(Chosen(f.b1, g1), t2));
    ScaledIsSum(f, GENERATOR);
  }

  lemma TapsLast(b: nat, gs: seq<nat>, c: bool, g: Six)
    requires |gs| == 1 && b % 2 == Bit(c) && b / 2 == 0 && gs[0] == Word(g)
    ensures Taps(b, gs) == Word(Chosen(c, g))
  {
    hide Xor, Chosen, Word;
    WordChosen(c, g);
    NoTaps(gs[1..]);
    XorZero(Word(Chosen(c, g)));
  }

  /** The code's step is one step of division by the generator polynomial of BIP-173. */
  lemma PolymodIsDivision(r: Six)
    ensures PolymodStep(Word(r)) == Word(Step(r))
  {
    hide Xor, Taps, Sum, Scaled, Number;
    var low := (((Number(r.s4) * 32 + Number(r.s3)) * 32 + Number(r.s2)) * 32 + Number(r.s1)) * 32 + Number(r.s0);
    var shifted := Six(r.s4, r.s3, r.s2, r.s1, r.s0, NIL);
    assert Number(NIL) == 0 by {
      NilIsZero();
    }
    assert Word(r) == Number(r.s5) * 0x200_0000 + low;
    TopAndLow(Word(r), Number(r.s5), low);
    TapsAre(r.s5);
    XorWord(shifted, Scaled(r.s5, GENERATOR));
  }

  lemma NilIsZero()
    ensures Number(NIL) == 0
  {
  }

  lemma TopAndLow(x: nat, top: nat, low: nat)
    requires low < 0x200_0000 && x == top * 0x200_0000 + low
    ensures x / 0x200_0000 == top && x % 0x200_0000 == low
  {
  }

  // ---------------------------------------------------------------- the code is linear over the field

  lemma TwiceSum(a: Five, b: Five)
    ensures Twice(Plus(a, b)) == Plus(Twice(a), Twice(b))
  {
  }

  lemma DoubledSum(r: Six, t: Six)
    ensures Doubled(Sum(r, t)) == Sum(Doubled(r), Doubled(t))
  {
    hide Twice, Plus;
    TwiceSum(r.s5, t.s5);
    TwiceSum(r.s4, t.s4);
    TwiceSum(r.s3, t.s3);
    TwiceSum(r.s2, t.s2);
    TwiceSum(r.s1, t.s1);
    TwiceSum(r.s0, t.s0);
  }

  lemma PlusComm(a: Five, b: Five)
    ensures Plus(a, b) == Plus(b, a)
  {
  }

  lemma PlusAssoc(a: Five, b: Five, c: Five)
    ensures Plus(Plus(a, b), c) == Plus(a, Plus(b, c))
  {
  }

  lemma SumComm(r: Six, t: Six)
    ensures Sum(r, t) == Sum(t, r)
  {
    hide Plus;
    PlusComm(r.s5, t.s5);
    PlusComm(r.s4, t.s4);
    PlusComm(r.s3, t.s3);
    PlusComm(r.s2, t.s2);
    PlusComm(r.s1, t.s1);
    PlusComm(r.s0, t.s0);
  }

  lemma SumAssoc(r: Six, t: Six, u: Six)
    ensures Sum(Sum(r, t), u) == Sum(r, Sum(t, u))
  {
    hide Plus;
    PlusAssoc(r.s5, t.s5, u.s5);
    PlusAssoc(r.s4, t.s4, u.s4);
    PlusAssoc(r.s3, t.s3, u.s3);
    PlusAssoc(r.s2, t.s2, u.s2);
    PlusAssoc(r.s1, t.s1, u.s1);
    PlusAssoc(r.s0, t.s0, u.s0);
  }

  /** The last of six summands may as well come first, and the fourth and fifth be taken together. */
  lemma Rearranged(a: Six, b: Six, c: Six, d: Six, e: Six, f: Six)
    ensures Sum(a, Sum(b, Sum(c, Sum(d, Sum(e, f))))) == Sum(f, Sum(a, Sum(b, Sum(Sum(c, e), d))))
  {
    hide Sum;
    SumAssoc(d, e, f);
    SumComm(d, e);
    SumAssoc(c, Sum(e, d), f);
    SumAssoc(c, e, d);
    var x := Sum(Sum(c, e), d);
    SumAssoc(b, x, f);
    SumAssoc(a, Sum(b, x), f);
    SumComm(Sum(a, Sum(b, x)), f);
  }

  /** Thirty-two times a symbol is nine times it: x^5 is x^3 + 1. */
  lemma TwiceFive(a: Five)
    ensures Twice(Twice(Twice(Twice(Twice(a))))) == Plus(Twice(Twice(Twice(a))), a)
  {
  }

  lemma DoubledFive(r: Six)
    ensures Doubled(Doubled(Doubled(Doubled(Doubled(r))))) == Sum(Doubled(Doubled(Doubled(r))), r)
  {
    hide Twice, Plus;
    TwiceFive(r.s5);
    TwiceFive(r.s4);
    TwiceFive(r.s3);
    TwiceFive(r.s2);
    TwiceFive(r.s1);
    TwiceFive(r.s0);
  }

  lemma DoubledChosen(c: bool, r: Six)
    ensures Doubled(Chosen(c, r)) == Chosen(c, Doubled(r))
  {
    hide Twice;
    TwiceNil();
  }

  lemma ChosenSum(c: bool, r: Six, t: Six)
    ensures Chosen(c, Sum(r, t)) == Sum(Chosen(c, r), Chosen(c, t))
  {
    hide Plus;
    PlusNil(NIL);
  }

  lemma ChosenOdd(x: bool, y: bool, r: Six)
    ensures Chosen(x != y, r) == Sum(Chosen(x, r), Chosen(y, r))
  {
    hide Plus;
    PlusNil(NIL);
    PlusEither(r.s5);
    PlusEither(r.s4);
    PlusEither(r.s3);
    PlusEither(r.s2);
    PlusEither(r.s1);
    PlusEither(r.s0);
  }

  lemma PlusEither(a: Five)
    ensures Plus(a, NIL) == a && Plus(NIL, a) == a && Plus(a, a) == NIL
  {
  }

  lemma TwiceBits(a: Five)
    ensures var t := Twice(a);
      t.b0 == a.b4 && t.b1 == a.b0 && t.b2 == a.b1 && t.b3 == (a.b2 != a.b4) && t.b4 == a.b3
  {
  }

  lemma ScaledTwice(a: Five, r: Six)
    ensures Scaled(Twice(a), r) == Doubled(Scaled(a, r))
  {
    hide Twice, Sum, Scaled, Doubled, Chosen;
    var r1 := Doubled(r);
    var r2 := Doubled(r1);
    var r3 := Doubled(r2);
    var r4 := Doubled(r3);
    TwiceBits(a);
    ScaledIsSum(Twice(a), r);
    ScaledIsSum(a, r);
    ChosenOdd(a.b2, a.b4, r3);
    DoubledSums(Chosen(a.b0, r), Chosen(a.b1, r1), Chosen(a.b2, r2), Chosen(a.b3, r3), Chosen(a.b4, r4));
    DoubledChosen(a.b0, r);
    DoubledChosen(a.b1, r1);
    DoubledChosen(a.b2, r2);
    DoubledChosen(a.b3, r3);
    DoubledChosen(a.b4, r4);
    DoubledFive(r);
    ChosenSum(a.b4, r3, r);
    Rearranged(Chosen(a.b0, r1), Chosen(a.b1, r2), Chosen(a.b2, r3), Chosen(a.b3, r4), Chosen(a.b4, r3),
               Chosen(a.b4, r));
  }

  lemma DoubledSums(a: Six, b: Six, c: Six, d: Six, e: Six)
    ensures Doubled(Sum(a, Sum(b, Sum(c, Sum(d, e)))))
         == Sum(Doubled(a), Sum(Doubled(b), Sum(Doubled(c), Sum(Doubled(d), Doubled(e)))))
  {
    hide Doubled, Sum;
    DoubledSum(a, Sum(b, Sum(c, Sum(d, e))));
    DoubledSum(b, Sum(c, Sum(d, e)));
    DoubledSum(c, Sum(d, e));
    DoubledSum(d, e);
  }

  /** Doubling every symbol commutes with the step. Two generates the multiplicative group of the field, so the
      same holds of every nonzero factor. */
  lemma StepDoubled(r: Six)
    ensures Step(Doubled(r)) == Doubled(Step(r))
  {
    hide Twice, Plus, Times, Sum, Scaled;
    ScaledTwice(r.s5, GENERATOR);
    TwiceNil();
    var shifted := Six(r.s4, r.s3, r.s2, r.s1, r.s0, NIL);
    DoubledSum(shifted, Scaled(r.s5, GENERATOR));
  }

  lemma TwiceNil()
    ensures Twice(NIL) == NIL
  {
  }

  // ---------------------------------------------------------------- absorbing symbols

  function Absorb(r: Six, f: Five): Six {
    var t := Step(r);
    t.(s0 := Plus(t.s0, f))
  }

  function Run(r: Six, vs: seq<nat>): Six
    requires Symbols(vs)
    decreases vs
  {
    if vs == [] then r else Run(Absorb(r, Symbol(vs[0])), vs[1..])
  }

  lemma AbsorbIs(r: Six, v: nat)
    requires v < 32
    ensures Fold(Word(r), [v]) == Word(Absorb(r, Symbol(v)))
  {
    hide Xor, Step, Symbol, Number, Plus, PolymodStep;
    PolymodIsDivision(r);
    var t := Step(r);
    assert [v][..0] == [];
    LowSum(t, Symbol(v));
  }

  lemma LowSum(t: Six, f: Five)
    ensures Xor(Word(t), Number(f)) == Word(t.(s0 := Plus(t.s0, f)))
  {
    hide Xor, Number, Plus;
    NilIsZero();
    XorWord(t, Six(NIL, NIL, NIL, NIL, NIL, f));
    PlusNil(t.s5);
    PlusNil(t.s4);
    PlusNil(t.s3);
    PlusNil(t.s2);
    PlusNil(t.s1);
  }

  lemma PlusNil(a: Five)
    ensures Plus(a, NIL) == a
  {
  }

  /** The code's register over a list of symbols is the remainder of the division. */
  lemma {:induction false} FoldIsRun(r: Six, vs: seq<nat>)
    requires Symbols(vs)
    ensures Fold(Word(r), vs) == Word(Run(r, vs))
    decreases vs
  {
    hide Fold, Word, Absorb, Symbol;
    if vs == [] {
      FoldOfNone(Word(r));
    } else {
      var v := vs[0];
      assert vs == [v] + vs[1..];
      FoldConcat(Word(r), [v], vs[1..]);
      AbsorbIs(r, v);
      FoldIsRun(Absorb(r, Symbol(v)), vs[1..]);
    }
  }

  lemma FoldOfNone(chk: nat)
    ensures Fold(chk, []) == chk
  {
  }

  lemma {:induction false} RunConcat(r: Six, a: seq<nat>, b: seq<nat>)
    requires Symbols(a) && Symbols(b) && Symbols(a + b)
    ensures Run(r, a + b) == Run(Run(r, a), b)
    decreases a
  {
    hide Absorb, Symbol;
    if a == [] {
      assert a + b == b;
    } else {
      assert (a + b)[1..] == a[1..] + b;
      RunConcat(Absorb(r, Symbol(a[0])), a[1..], b);
    }
  }

  /** Doubled symbols. */
  function DoubledAll(vs: seq<nat>): (ws: seq<nat>)
    requires Symbols(vs)
    ensures |ws| == |vs| && Symbols(ws) && forall i :: 0 <= i < |vs| ==> ws[i] == Number(Twice(Symbol(vs[i])))
  {
    seq(|vs|, i requires 0 <= i < |vs| => Number(Twice(Symbol(vs[i]))))
  }

  lemma SymbolNumber(f: Five)
    ensures Symbol(Number(f)) == f
  {
  }

  lemma AbsorbDoubled(r: Six, f: Five)
    ensures Absorb(Doubled(r), Twice(f)) == Doubled(Absorb(r, f))
  {
    hide Twice, Plus, Step;
    StepDoubled(r);
    TwiceSum(Step(r).s0, f);
  }

  /** The register over doubled symbols is the doubled register: the code is linear over the field, and with a
      list of symbols every multiple of it passes or fails. */
  lemma {:induction false} RunDoubled(r: Six, vs: seq<nat>)
    requires Symbols(vs)
    ensures Run(Doubled(r), DoubledAll(vs)) == Doubled(Run(r, vs))
    decreases vs
  {
    hide Absorb, Doubled, Twice, Symbol, Number;
    if vs == [] {
    } else {
      var f := Symbol(vs[0]);
      assert DoubledAll(vs)[1..] == DoubledAll(vs[1..]);
      SymbolNumber(Twice(f));
      AbsorbDoubled(r, f);
      RunDoubled(Absorb(r, f), vs[1..]);
    }
  }
}
