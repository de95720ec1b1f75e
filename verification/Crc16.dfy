/** The table-driven 16-bit check, unrolled by four in one of its two copies. The table is arbitrary. */
module Crc16 {
  import opened Bits
  import opened Numerals

  type Word = n: nat | n < 65536

  function Step(table: seq<Word>, crc: Word, b: Byte): Word
    requires |table| == 256
  {
    IndexFits(crc, b);
    Xor(table[Xor(crc / 256, b)], 256 * crc) % 65536
  }

  lemma IndexFits(crc: Word, b: Byte)
    ensures Xor(crc / 256, b) < 256
  {
    hide Xor;
    assert Two(8) == 256;
    XorBound(crc / 256, b, 8);
  }

  /** Byte by byte, with nothing unrolled. */
  function Fold(table: seq<Word>, crc: Word, data: seq<Byte>): Word
    requires |table| == 256
  {
    if data == [] then crc else Step(table, Fold(table, crc, data[..|data| - 1]), data[|data| - 1])
  }

  lemma FoldLast(table: seq<Word>, start: Word, data: array<Byte>, n: nat)
    requires |table| == 256 && n < data.Length
    ensures Fold(table, start, data[..n + 1]) == Step(table, Fold(table, start, data[..n]), data[n])
  {
    hide Step;
    assert data[..n + 1][..n] == data[..n];
  }

  /** A check value taken so far is all that later bytes depend on: data may be checked in pieces. */
  lemma {:induction false} FoldConcat(table: seq<Word>, start: Word, a: seq<Byte>, b: seq<Byte>)
    requires |table| == 256
    ensures Fold(table, start, a + b) == Fold(table, Fold(table, start, a), b)
    decreases |b|
  {
    hide Step;
    if b == [] {
      assert a + b == a;
    } else {
      assert (a + b)[..|a + b| - 1] == a + b[..|b| - 1];
      FoldConcat(table, start, a, b[..|b| - 1]);
    }
  }

  /** `crc16`: four bytes a turn, then the rest one by one. */
  method Crc16(table: seq<Word>, data: array<Byte>, count: nat) returns (crc: Word)
    requires |table| == 256 && count <= data.Length && count < 65536
    ensures crc == Fold(table, 0, data[..count])
  {
    hide Step, Fold;
    crc := 0;
    var len, pos := count, 0;
    FoldNone(table, 0);
    assert data[..0] == [];
    while len >= 4
      invariant 0 <= len && 0 <= pos && pos + len == count && crc == Fold(table, 0, data[..pos])
    {
      FoldLast(table, 0, data, pos);
      FoldLast(table, 0, data, pos + 1);
      FoldLast(table, 0, data, pos + 2);
      FoldLast(table, 0, data, pos + 3);
      crc := Step(table, crc, data[pos]);
      crc := Step(table, crc, data[pos + 1]);
      crc := Step(table, crc, data[pos + 2]);
      crc := Step(table, crc, data[pos + 3]);
      pos, len := pos + 4, len - 4;
    }
    while len > 0
      invariant 0 <= len && 0 <= pos && pos + len == count && crc == Fold(table, 0, data[..pos])
    {
      FoldLast(table, 0, data, pos);
      crc := Step(table, crc, data[pos]);
      pos, len := pos + 1, len - 1;
    }
  }

  /** `crc16_false`. */
  method Crc16False(table: seq<Word>, data: array<Byte>, count: nat) returns (crc: Word)
    requires |table| == 256 && count <= data.Length && count < 65536
    ensures crc == Fold(table, 0xFFFF, data[..count])
  {
    hide Step, Fold;
    crc := 0xFFFF;
    var len, pos := count, 0;
    FoldNone(table, 0xFFFF);
    assert data[..0] == [];
    while len > 0
      invariant 0 <= len && 0 <= pos && pos + len == count && crc == Fold(table, 0xFFFF, data[..pos])
    {
      FoldLast(table, 0xFFFF, data, pos);
      crc := Step(table, crc, data[pos]);
      pos, len := pos + 1, len - 1;
    }
  }

  lemma FoldNone(table: seq<Word>, start: Word)
    requires |table| == 256
    ensures Fold(table, start, []) == start
  {
  }

  // ---------------------------------------------------------------- the table of the polynomial

  /** x^16 + x^12 + x^5 + 1, without its top bit. */
  const POLYNOMIAL: nat := 0x1021

  /** One bit through the register. */
  function Shift(x: Word): Word {
    FeedbackFits(x);
    Xor(2 * x % 65536, Feedback(x))
  }

  function Feedback(x: Word): nat {
    if x >= 32768 then POLYNOMIAL else 0
  }

  lemma FeedbackFits(x: Word)
    ensures Xor(2 * x % 65536, Feedback(x)) < 65536
  {
    hide Xor;
    SixteenBits();
    XorBound(2 * x % 65536, Feedback(x), 16);
  }

  lemma SixteenBits()
    ensures Two(8) == 256 && Two(15) == 32768 && Two(16) == 65536
  {
    PowAdd(2, 8, 8);
    assert Two(16) == 2 * Two(15);
  }

  function Shifts(x: Word, k: nat): Word {
    if k == 0 then x else Shift(Shifts(x, k - 1))
  }

  /** Shifting respects sums without carry. */
  lemma ShiftLinear(x: Word, y: Word)
    ensures Xor(x, y) < 65536 && Shift(Xor(x, y)) == Xor(Shift(x), Shift(y))
  {
    hide Xor, Shl, Pow;
    SixteenBits();
    XorBound(x, y, 16);
    var a, u, b, v := x / 32768, x % 32768, y / 32768, y % 32768;
    XorParts(a, b, u, v, 15);
    XorBound(u, v, 15);
    ShlIsProduct(a, 15);
    ShlIsProduct(b, 15);
    ShlIsProduct(Xor(a, b), 15);
    XorOfBits(a, b);
    XorHalf(u, v, 0, 0);
    XorSwap(2 * u, Feedback(x), 2 * v, Feedback(y));
    XorFeedback(a, b);
  }

  lemma XorOfBits(a: nat, b: nat)
    requires a <= 1 && b <= 1
    ensures Xor(a, b) == if a == b then 0 else 1
  {
  }

  lemma XorFeedback(a: nat, b: nat)
    requires a <= 1 && b <= 1
    ensures Xor(a * POLYNOMIAL, b * POLYNOMIAL) == if a == b then 0 else POLYNOMIAL
  {
    hide Xor;
    XorZero(POLYNOMIAL);
    XorSelf(POLYNOMIAL);
    XorSelf(0);
  }

  lemma {:induction false} ShiftsLinear(x: Word, y: Word, k: nat)
    ensures Xor(x, y) < 65536 && Shifts(Xor(x, y), k) == Xor(Shifts(x, k), Shifts(y, k))
  {
    hide Xor, Shift;
    if k == 0 {
      ShiftLinear(x, y);
    } else {
      ShiftsLinear(x, y, k - 1);
      ShiftLinear(Shifts(x, k - 1), Shifts(y, k - 1));
    }
  }

  /** Until a bit reaches the top, shifting doubles. */
  lemma {:induction false} ShiftsDouble(x: Word, k: nat)
    requires x < 256 && k <= 8
    ensures x * Two(k) < 65536 && Shifts(x, k) == x * Two(k)
  {
    hide Shift, Pow;
    SixteenBits();
    if k == 0 {
      assert Two(0) == 1 by { TwoOfNothing(); }
    } else {
      ShiftsDouble(x, k - 1);
      TwoStep(k);
      PowMonotone(2, k - 1, 7);
      TwoStep(8);
      var y := x * Two(k - 1);
      MulBelow(x, 256, Two(k - 1), 128);
      ShiftDoubles(y);
      MulAssoc(x, 2, Two(k - 1));
    }
  }

  lemma TwoOfNothing()
    ensures Two(0) == 1
  {
  }

  lemma ShiftDoubles(y: nat)
    requires y < 32768
    ensures Shift(y) == 2 * y
  {
    hide Xor;
    XorZero(2 * y);
  }

  lemma MulBelow(x: nat, y: nat, p: nat, q: nat)
    requires x < y && 0 < p <= q
    ensures x * p < y * q
  {
    MulStep(x, y, p);
    MulMonotone(p, q, y);
  }

  /** Entry `i` is what eight shifts make of `i` in the upper byte. */
  ghost predicate IsTable(table: seq<Word>) {
    |table| == 256 && forall i: Word :: i < 256 ==> table[i] == Shifts(256 * i, 8)
  }

  /** With that table, a byte step is eight bit steps of the register with the byte added to its upper half. */
  lemma StepIsShifts(table: seq<Word>, crc: Word, b: Byte)
    requires IsTable(table)
    ensures Xor(crc, 256 * b) < 65536 && Step(table, crc, b) == Shifts(Xor(crc, 256 * b), 8)
  {
    hide Xor, Step, Shifts;
    var low, i := crc % 256, Xor(crc / 256, b);
    IndexFits(crc, b);
    ByteAdded(crc, b);
    ShiftsLinear(256 * i, low, 8);
    LowByteShifted(low);
    StepParts(table, crc, b);
  }

  lemma LowByteShifted(low: Byte)
    ensures Shifts(low, 8) == 256 * low
  {
    SixteenBits();
    ShiftsDouble(low, 8);
  }

  lemma StepParts(table: seq<Word>, crc: Word, b: Byte)
    requires |table| == 256
    ensures Xor(crc / 256, b) < 256
    ensures Step(table, crc, b) == Xor(table[Xor(crc / 256, b)], 256 * (crc % 256))
  {
    hide Xor;
    var low := crc % 256;
    IndexFits(crc, b);
    HighCutOff(table[Xor(crc / 256, b)], crc / 256, 256 * low);
    assert 256 * crc == 65536 * (crc / 256) + 256 * low;
  }

  lemma ByteAdded(crc: Word, b: Byte)
    ensures Xor(crc, 256 * b) == Xor(256 * Xor(crc / 256, b), crc % 256)
  {
    hide Xor, Shl, Pow;
    SixteenBits();
    var high, low := crc / 256, crc % 256;
    var i := Xor(high, b);
    XorParts(high, b, low, 0, 8);
    XorParts(i, 0, 0, low, 8);
    XorZero(low);
    XorZero(i);
    ShlIsProduct(high, 8);
    ShlIsProduct(b, 8);
    ShlIsProduct(i, 8);
    ShlIsProduct(0, 8);
  }

  lemma HighCutOff(t: Word, high: nat, u: Word)
    ensures Xor(t, 65536 * high + u) % 65536 == Xor(t, u)
  {
    hide Xor, Shl, Pow;
    SixteenBits();
    XorParts(0, high, t, u, 16);
    XorBound(t, u, 16);
    XorZero(high);
    ShlIsProduct(0, 16);
    ShlIsProduct(high, 16);
  }
}
