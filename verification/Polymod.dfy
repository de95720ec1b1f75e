/** The checksum of Bech32 and Bech32m (BIP-173, section "Bech32"; BIP-350, section "Bech32m").
    Words are naturals; the register stays below 2^30. */
module Polymod {
  import opened Bits
  import opened Numerals

  datatype Encoding = Plain | M

  // ---------------------------------------------------------------- the checksum register

  const GENERATORS: seq<nat> := [0x3b6a57b2, 0x26508e6d, 0x1ea119fa, 0x3d4233dd, 0x2a1462b3]

  const REGISTER: nat := 0x4000_0000

  function Taps(b: nat, gs: seq<nat>): nat {
    if gs == [] then 0 else Xor(if b % 2 == 1 then gs[0] else 0, Taps(b / 2, gs[1..]))
  }

  function PolymodStep(pre: nat): nat {
    Xor(32 * (pre % 0x200_0000), Taps(pre / 0x200_0000, GENERATORS))
  }

  function FinalConstant(enc: Encoding): nat {
    match enc
    case Plain => 1
    case M => 0x2bc8_30a3
  }

  /** The register after absorbing `vs`. */
  function Fold(chk: nat, vs: seq<nat>): nat {
    if vs == [] then chk else Xor(PolymodStep(Fold(chk, vs[..|vs| - 1])), vs[|vs| - 1])
  }

  lemma {:induction false} TapsLinear(x: nat, y: nat, gs: seq<nat>)
    ensures Taps(Xor(x, y), gs) == Xor(Taps(x, gs), Taps(y, gs))
  {
    if gs == [] {
      XorZero(0);
    } else {
      var g := gs[0];
      TapsLinear(x / 2, y / 2, gs[1..]);
      XorStep(x, y);
      XorZero(g);
      XorZero(0);
      XorSelf(g);
      XorSwap(if x % 2 == 1 then g else 0, if y % 2 == 1 then g else 0,
              Taps(x / 2, gs[1..]), Taps(y / 2, gs[1..]));
    }
  }

  lemma TwoValues()
    ensures Two(5) == 32 && Two(25) == 0x200_0000 && Two(30) == REGISTER
  {
    assert Two(10) == 1024;
    assert Two(20) == 0x10_0000;
  }

  lemma {:induction false} ShlShl(a: nat, j: nat, k: nat)
    ensures Shl(Shl(a, j), k) == Shl(a, j + k)
  {
    if k == 0 {
    } else {
      ShlShl(a, j, k - 1);
    }
  }

  lemma ShlTwentyFive(a: nat)
    ensures Shl(a, 25) == 0x200_0000 * a
  {
    hide Shl;
    ShlFive(a);
    ShlShl(a, 5, 5);
    ShlFive(32 * a);
    ShlShl(a, 10, 5);
    ShlFive(32 * (32 * a));
    ShlShl(a, 15, 5);
    ShlFive(32 * (32 * (32 * a)));
    ShlShl(a, 20, 5);
    ShlFive(32 * (32 * (32 * (32 * a))));
  }

  lemma XorAt5(a: nat, b: nat, u: nat, v: nat)
    requires u < 32 && v < 32
    ensures Xor(32 * a + u, 32 * b + v) == 32 * Xor(a, b) + Xor(u, v)
    ensures Xor(u, v) < 32
  {
    hide Xor, Shl, Two;
    TwoValues();
    ShlFive(a);
    ShlFive(b);
    ShlFive(Xor(a, b));
    XorParts(a, b, u, v, 5);
    XorBound(u, v, 5);
  }

  lemma XorAt25(x: nat, y: nat)
    ensures Xor(x, y) % 0x200_0000 == Xor(x % 0x200_0000, y % 0x200_0000)
    ensures Xor(x, y) / 0x200_0000 == Xor(x / 0x200_0000, y / 0x200_0000)
  {
    var p := 0x200_0000;
    hide Xor, Shl, Two;
    TwoValues();
    ShlTwentyFive(x / p);
    ShlTwentyFive(y / p);
    ShlTwentyFive(Xor(x / p, y / p));
    XorParts(x / p, y / p, x % p, y % p, 25);
    XorBound(x % p, y % p, 25);
  }

  /** The step is linear over exclusive or. */
  lemma PolymodLinear(x: nat, y: nat)
    ensures PolymodStep(Xor(x, y)) == Xor(PolymodStep(x), PolymodStep(y))
  {
    hide Xor, Taps;
    var p := 0x200_0000;
    XorAt25(x, y);
    XorAt5(x % p, y % p, 0, 0);
    XorZero(0);
    TapsLinear(x / p, y / p, GENERATORS);
    XorSwap(32 * (x % p), 32 * (y % p), Taps(x / p, GENERATORS), Taps(y / p, GENERATORS));
  }

  /** Below 2^25 nothing is fed back. */
  lemma PolymodLow(x: nat)
    requires x < 0x200_0000
    ensures PolymodStep(x) == 32 * x
  {
    hide Xor, Taps;
    NoTaps(GENERATORS);
    XorZero(32 * x);
  }

  lemma {:induction false} NoTaps(gs: seq<nat>)
    ensures Taps(0, gs) == 0
  {
    if gs == [] {
    } else {
      NoTaps(gs[1..]);
      XorZero(0);
    }
  }

  lemma {:induction false} TapsBound(b: nat, gs: seq<nat>)
    requires forall i :: 0 <= i < |gs| ==> gs[i] < Two(30)
    ensures Taps(b, gs) < Two(30)
  {
    if gs == [] {
    } else {
      TapsBound(b / 2, gs[1..]);
      XorBound(if b % 2 == 1 then gs[0] else 0, Taps(b / 2, gs[1..]), 30);
    }
  }

  lemma PolymodRange(x: nat)
    ensures PolymodStep(x) < REGISTER
  {
    hide Xor, Taps;
    TwoValues();
    TapsBound(x / 0x200_0000, GENERATORS);
    XorBound(32 * (x % 0x200_0000), Taps(x / 0x200_0000, GENERATORS), 30);
  }

  const LOW: seq<nat> := [0x12, 0x0d, 0x1a, 0x1d, 0x13]

  /** The low five bits of the feedback come from those of the generators. */
  lemma {:induction false} TapsLow(b: nat, gs: seq<nat>, low: seq<nat>)
    requires |low| == |gs| && forall i :: 0 <= i < |gs| ==> low[i] == gs[i] % 32
    ensures Taps(b, gs) % 32 == Taps(b, low) < 32
  {
    hide Xor;
    if gs == [] {
    } else {
      TapsLow(b / 2, gs[1..], low[1..]);
      LowStep(if b % 2 == 1 then gs[0] else 0, Taps(b / 2, gs[1..]));
    }
  }

  lemma LowStep(g: nat, t: nat)
    ensures Xor(g, t) % 32 == Xor(g % 32, t % 32) < 32
  {
    hide Xor;
    XorAt5(g / 32, t / 32, g % 32, t % 32);
  }

  predicate Parity(b: nat, odd: seq<bool>) {
    if odd == [] then false else (b % 2 == 1 && odd[0]) != Parity(b / 2, odd[1..])
  }

  /** The low bit of the feedback is a parity of the bits of `b`. */
  lemma {:induction false} TapsBit(b: nat, gs: seq<nat>, half: seq<nat>, odd: seq<bool>)
    requires |gs| == |half| == |odd|
    requires forall i :: 0 <= i < |gs| ==> gs[i] == 2 * half[i] + (if odd[i] then 1 else 0)
    ensures Taps(b, gs) == 2 * Taps(b, half) + (if Parity(b, odd) then 1 else 0)
  {
    hide Xor;
    if gs == [] {
    } else {
      TapsBit(b / 2, gs[1..], half[1..], odd[1..]);
      XorHalf(if b % 2 == 1 then half[0] else 0, Taps(b / 2, half[1..]),
              if b % 2 == 1 && odd[0] then 1 else 0, if Parity(b / 2, odd[1..]) then 1 else 0);
    }
  }

  lemma ParityOfFive(b: nat, o: seq<bool>)
    requires |o| == 5
    ensures Parity(b, o) == (((((b % 2 == 1 && o[0]) != (b / 2 % 2 == 1 && o[1])) != (b / 4 % 2 == 1 && o[2]))
      != (b / 8 % 2 == 1 && o[3])) != (b / 16 % 2 == 1 && o[4]))
  {
    assert b / 2 / 2 == b / 4 && b / 4 / 2 == b / 8 && b / 8 / 2 == b / 16;
    assert !Parity(b / 32, o[5..]);
    assert Parity(b / 16, o[4..]) == (b / 16 % 2 == 1 && o[4]);
    assert Parity(b / 8, o[3..]) == ((b / 8 % 2 == 1 && o[3]) != Parity(b / 16, o[4..]));
    assert Parity(b / 4, o[2..]) == ((b / 4 % 2 == 1 && o[2]) != Parity(b / 8, o[3..]));
    assert Parity(b / 2, o[1..]) == ((b / 2 % 2 == 1 && o[1]) != Parity(b / 4, o[2..]));
  }

  /** No nonzero top symbol is fed back invisibly: the five parities are independent. */
  lemma FeedbackSeen(b: nat)
    requires 0 < b < 32
    ensures Taps(b, LOW) != 0
  {
    hide Taps, Parity;
    var odd0, odd1, odd2 := [false, true, false, true, true], [true, false, true, false, true],
      [false, true, false, true, false];
    var odd3, odd4 := [false, true, true, true, false], [true, false, true, true, true];
    TapsBit(b, LOW, [9, 6, 13, 14, 9], odd0);
    TapsBit(b, [9, 6, 13, 14, 9], [4, 3, 6, 7, 4], odd1);
    TapsBit(b, [4, 3, 6, 7, 4], [2, 1, 3, 3, 2], odd2);
    TapsBit(b, [2, 1, 3, 3, 2], [1, 0, 1, 1, 1], odd3);
    TapsBit(b, [1, 0, 1, 1, 1], [0, 0, 0, 0, 0], odd4);
    ParityOfFive(b, odd0);
    ParityOfFive(b, odd1);
    ParityOfFive(b, odd2);
    ParityOfFive(b, odd3);
    ParityOfFive(b, odd4);
  }

  /** On 30-bit registers only zero steps to zero ... */
  lemma PolymodKernel(x: nat)
    requires x < REGISTER && PolymodStep(x) == 0
    ensures x == 0
  {
    hide Xor, Taps;
    var b, low := x / 0x200_0000, 32 * (x % 0x200_0000);
    XorZeroIff(low, Taps(b, GENERATORS));
    TapsLow(b, GENERATORS, LOW);
    if b > 0 {
      FeedbackSeen(b);
    } else {
      NoTaps(GENERATORS);
    }
  }

  /** ... so, being linear, the step is injective there. */
  lemma PolymodInjective(x: nat, y: nat)
    requires x < REGISTER && y < REGISTER && PolymodStep(x) == PolymodStep(y)
    ensures x == y
  {
    hide Xor, PolymodStep;
    TwoValues();
    PolymodLinear(x, y);
    XorZeroIff(PolymodStep(x), PolymodStep(y));
    XorBound(x, y, 30);
    PolymodKernel(Xor(x, y));
    XorZeroIff(x, y);
  }

  // ---------------------------------------------------------------- folding over symbols

  ghost predicate Symbols(vs: seq<nat>) {
    forall i :: 0 <= i < |vs| ==> vs[i] < 32
  }

  function XorSeq(xs: seq<nat>, ys: seq<nat>): (zs: seq<nat>)
    requires |xs| == |ys|
    ensures |zs| == |xs|
  {
    seq(|xs|, i requires 0 <= i < |xs| => Xor(xs[i], ys[i]))
  }

  function Zeros(n: nat): (zs: seq<nat>)
    ensures |zs| == n && forall i :: 0 <= i < n ==> zs[i] == 0
  {
    seq(n, _ => 0)
  }

  lemma {:induction false} FoldConcat(chk: nat, xs: seq<nat>, ys: seq<nat>)
    ensures Fold(chk, xs + ys) == Fold(Fold(chk, xs), ys)
  {
    hide Xor, PolymodStep;
    if ys == [] {
      assert xs + ys == xs;
    } else {
      var y := ys[..|ys| - 1];
      assert (xs + ys)[..|xs + ys| - 1] == xs + y;
      FoldConcat(chk, xs, y);
    }
  }

  /** The fold is linear in the register and the symbols together. */
  lemma {:induction false} FoldLinear(a: nat, b: nat, xs: seq<nat>, ys: seq<nat>)
    requires |xs| == |ys|
    ensures Fold(Xor(a, b), XorSeq(xs, ys)) == Xor(Fold(a, xs), Fold(b, ys))
  {
    hide Xor, PolymodStep;
    if xs == [] {
    } else {
      var n := |xs| - 1;
      FoldLinear(a, b, xs[..n], ys[..n]);
      assert XorSeq(xs, ys)[..n] == XorSeq(xs[..n], ys[..n]);
      PolymodLinear(Fold(a, xs[..n]), Fold(b, ys[..n]));
      XorSwap(PolymodStep(Fold(a, xs[..n])), PolymodStep(Fold(b, ys[..n])), xs[n], ys[n]);
    }
  }

  /** Up to six symbols absorbed into an empty register are just its digits. */
  lemma {:induction false} FoldDigits(vs: seq<nat>)
    requires Symbols(vs) && |vs| <= 6
    ensures Fold(0, vs) == Value(vs, 32) < Pow(32, |vs|)
  {
    hide Xor, PolymodStep, Pow;
    if vs == [] {
    } else {
      var n := |vs| - 1;
      var x := Value(vs[..n], 32);
      FoldDigits(vs[..n]);
      PowMonotone(32, n, 5);
      PowFive();
      PolymodLow(x);
      XorAt5(x, 0, 0, vs[n]);
      XorZero(x);
      XorZero(vs[n]);
    }
    ValueBound(vs, 32);
  }

  lemma PowFive()
    ensures Pow(32, 5) == 0x200_0000 && Pow(32, 6) == REGISTER
  {
    assert Pow(32, 3) == 32768;
  }

  lemma {:induction false} FoldRange(chk: nat, vs: seq<nat>)
    requires chk < REGISTER && Symbols(vs)
    ensures Fold(chk, vs) < REGISTER
  {
    hide Xor, PolymodStep;
    if vs == [] {
    } else {
      var n := |vs| - 1;
      TwoValues();
      PolymodRange(Fold(chk, vs[..n]));
      XorBound(PolymodStep(Fold(chk, vs[..n])), vs[n], 30);
    }
  }

  /** A nonzero register stays nonzero under further zero symbols. */
  lemma {:induction false} FoldZeros(chk: nat, n: nat)
    requires 0 < chk < REGISTER
    ensures 0 < Fold(chk, Zeros(n)) < REGISTER
  {
    hide Xor, PolymodStep;
    FoldRange(chk, Zeros(n));
    if n == 0 {
    } else {
      assert Zeros(n)[..n - 1] == Zeros(n - 1);
      FoldZeros(chk, n - 1);
      var c := Fold(chk, Zeros(n - 1));
      XorZero(PolymodStep(c));
      if PolymodStep(c) == 0 {
        PolymodKernel(c);
      }
    }
  }

  lemma {:induction false} FoldNothing(n: nat)
    ensures Fold(0, Zeros(n)) == 0
  {
    hide Xor, PolymodStep;
    if n == 0 {
    } else {
      assert Zeros(n)[..n - 1] == Zeros(n - 1);
      FoldNothing(n - 1);
      PolymodLow(0);
      XorZero(0);
    }
  }

  lemma XorSeqSame(xs: seq<nat>)
    ensures XorSeq(xs, xs) == Zeros(|xs|)
  {
    hide Xor;
    forall i | 0 <= i < |xs|
      ensures Xor(xs[i], xs[i]) == 0
    {
      XorSelf(xs[i]);
    }
  }

  lemma XorSeqSymbols(xs: seq<nat>, ys: seq<nat>)
    requires |xs| == |ys| && Symbols(xs) && Symbols(ys)
    ensures Symbols(XorSeq(xs, ys))
    ensures xs != ys ==> XorSeq(xs, ys) != Zeros(|xs|)
  {
    hide Xor;
    forall i | 0 <= i < |xs|
      ensures Xor(xs[i], ys[i]) < 32 && (Xor(xs[i], ys[i]) == 0 ==> xs[i] == ys[i])
    {
      XorAt5(0, 0, xs[i], ys[i]);
      XorZeroIff(xs[i], ys[i]);
    }
    if XorSeq(xs, ys) == Zeros(|xs|) {
      forall i | 0 <= i < |xs|
        ensures xs[i] == ys[i]
      {
        assert XorSeq(xs, ys)[i] == 0;
      }
    }
  }

  /** Any change confined to six consecutive symbols changes the register, whatever surrounds it. */
  lemma BurstSeen(chk: nat, before: seq<nat>, w1: seq<nat>, w2: seq<nat>, after: seq<nat>)
    requires |w1| == |w2| <= 6 && Symbols(w1) && Symbols(w2)
    requires Fold(chk, before + w1 + after) == Fold(chk, before + w2 + after)
    ensures w1 == w2
  {
    hide Xor, Fold, Value, Pow;
    var a, d := Fold(chk, before), XorSeq(w1, w2);
    assert before + w1 + after == before + (w1 + after) && before + w2 + after == before + (w2 + after);
    FoldConcat(chk, before, w1 + after);
    FoldConcat(chk, before, w2 + after);
    FoldLinear(a, a, w1 + after, w2 + after);
    XorSelf(a);
    XorSelf(Fold(a, w1 + after));
    XorSeqSame(after);
    assert XorSeq(w1 + after, w2 + after) == d + XorSeq(after, after);
    FoldConcat(0, d, Zeros(|after|));
    XorSeqSymbols(w1, w2);
    FoldDigits(d);
    if w1 != w2 {
      NonzeroValue(d);
      PowMonotone(32, |d|, 6);
      PowFive();
      FoldZeros(Fold(0, d), |after|);
    }
  }

  lemma NonzeroValue(d: seq<nat>)
    requires Symbols(d) && d != Zeros(|d|)
    ensures Value(d, 32) > 0
  {
    hide Value;
    if Value(d, 32) == 0 {
      ValueZeros(Zeros(|d|), 32);
      ValueInjective(d, Zeros(|d|), 32);
    }
  }

  // ---------------------------------------------------------------- the six check symbols

  function CheckDigits(p: nat): (s: seq<nat>)
    ensures |s| == 6 && Symbols(s)
  {
    [p / 0x200_0000 % 32, p / 0x10_0000 % 32, p / 0x8000 % 32, p / 0x400 % 32, p / 0x20 % 32, p % 32]
  }

  lemma CheckDigitsValue(p: nat)
    requires p < REGISTER
    ensures Value(CheckDigits(p), 32) == p
  {
    var d := CheckDigits(p);
    ValueSingle(d[0], 32);
    ValueSnoc([d[0]], d[1], 32);
    ValueSnoc([d[0], d[1]], d[2], 32);
    ValueSnoc([d[0], d[1], d[2]], d[3], 32);
    ValueSnoc([d[0], d[1], d[2], d[3]], d[4], 32);
    ValueSnoc([d[0], d[1], d[2], d[3], d[4]], d[5], 32);
    assert [d[0], d[1]] == [d[0]] + [d[1]];
    assert [d[0], d[1], d[2]] == [d[0], d[1]] + [d[2]];
    assert [d[0], d[1], d[2], d[3]] == [d[0], d[1], d[2]] + [d[3]];
    assert [d[0], d[1], d[2], d[3], d[4]] == [d[0], d[1], d[2], d[3]] + [d[4]];
    assert d == [d[0], d[1], d[2], d[3], d[4]] + [d[5]];
    Regroup(p);
  }

  lemma Regroup(p: nat)
    requires p < REGISTER
    ensures ((((p / 0x200_0000 % 32 * 32 + p / 0x10_0000 % 32) * 32 + p / 0x8000 % 32) * 32
      + p / 0x400 % 32) * 32 + p / 0x20 % 32) * 32 + p % 32 == p
  {
    Nested(p, 0x20);
    Nested(p, 0x400);
    Nested(p, 0x8000);
    Nested(p, 0x10_0000);
    Horner(p, p / 0x20, p / 0x400, p / 0x8000, p / 0x10_0000, p / 0x200_0000);
  }

  /** Dividing by `a` and then by 32. */
  lemma Nested(p: nat, a: nat)
    requires a > 0
    ensures p / (a * 32) == p / a / 32
  {
    DivId(p, a);
    DivId(p / a, 32);
    var q, t, r := p / a / 32, p / a % 32, p % a;
    NestedProduct(q, t, r, a);
    ModIs(p, q, t * a + r, a * 32);
  }

  lemma NestedProduct(q: nat, t: nat, r: nat, a: nat)
    requires t < 32 && r < a
    ensures (q * 32 + t) * a + r == q * (a * 32) + (t * a + r) && 0 <= t * a + r < a * 32
  {
    MulMonotone(t, 31, a);
    MulAssoc(q, 32, a);
  }

  lemma Horner(p0: nat, p1: nat, p2: nat, p3: nat, p4: nat, p5: nat)
    requires p1 == p0 / 32 && p2 == p1 / 32 && p3 == p2 / 32 && p4 == p3 / 32 && p5 == p4 / 32 && p5 < 32
    ensures ((((p5 % 32 * 32 + p4 % 32) * 32 + p3 % 32) * 32 + p2 % 32) * 32 + p1 % 32) * 32 + p0 % 32 == p0
  {
  }

  /** The symbols `bech32_encode` appends to a register. */
  function Checksum(chk: nat, enc: Encoding): (s: seq<nat>)
    ensures |s| == 6 && Symbols(s)
  {
    CheckDigits(Xor(Fold(chk, Zeros(6)), FinalConstant(enc)))
  }

  /** Six symbols bring the register to the final constant of `enc` exactly when they are
      the checksum for `enc`. */
  lemma ChecksumUnique(chk: nat, t: seq<nat>, enc: Encoding)
    requires chk < REGISTER && |t| == 6 && Symbols(t)
    ensures Fold(chk, t) == FinalConstant(enc) <==> t == Checksum(chk, enc)
  {
    hide Xor, Fold, Value, Pow, CheckDigits;
    var c, k := Fold(chk, Zeros(6)), FinalConstant(enc);
    XorZero(chk);
    forall i | 0 <= i < 6
      ensures XorSeq(Zeros(6), t)[i] == t[i]
    {
      XorZero(t[i]);
    }
    assert XorSeq(Zeros(6), t) == t;
    FoldLinear(chk, 0, Zeros(6), t);
    FoldDigits(t);
    FoldRange(chk, Zeros(6));
    TwoValues();
    XorBound(c, k, 30);
    CheckDigitsValue(Xor(c, k));
    XorCancel(c, Value(t, 32));
    XorCancel(c, k);
    if Value(t, 32) == Xor(c, k) {
      ValueInjective(t, Checksum(chk, enc), 32);
    }
  }
}
