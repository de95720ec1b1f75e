/** `increment_bitmask`: the bits under a mask, wherever they lie, count as one number. */
module VersionRolling {
  import opened Bits
  import opened Numerals

  const WORD: nat := 32

  /** The expression of the source on words of width `w`, with the `+ 1` generalised to a carry `c`. */
  function Roll(value: nat, mask: nat, w: nat, c: nat): nat
    requires value < Two(w) && mask < Two(w)
  {
    Or(And(value, Not(mask, w)), And((Or(value, Not(mask, w)) + c) % Two(w), mask))
  }

  /** The masked bits of `value`, closed up. */
  function Compress(value: nat, mask: nat, w: nat): nat {
    if w == 0 then 0
    else if mask % 2 == 1 then value % 2 + 2 * Compress(value / 2, mask / 2, w - 1)
    else Compress(value / 2, mask / 2, w - 1)
  }

  function PopCount(mask: nat, w: nat): nat {
    if w == 0 then 0 else mask % 2 + PopCount(mask / 2, w - 1)
  }

  /** Bit by bit: an unmasked bit stays and lets the carry through, a masked one adds it. */
  lemma RollHalves(v: nat, m: nat, w: nat, c: nat)
    requires w > 0 && v < Two(w) && m < Two(w) && c <= 1
    ensures v / 2 < Two(w - 1) && m / 2 < Two(w - 1)
    ensures Roll(v, m, w, c) % 2 == if m % 2 == 1 then (v % 2 + c) % 2 else v % 2
    ensures Roll(v, m, w, c) / 2 == Roll(v / 2, m / 2, w - 1, if m % 2 == 1 then (v % 2 + c) / 2 else c)
  {
    hide And, Or, Not, Two;
    TwoStep(w);
    var n := Not(m, w);
    NotStep(m, w);
    var o := Or(v, n);
    OrStep(v, n);
    OrBoundNot(v, m, w);
    OrBoundNot(v / 2, m / 2, w - 1);
    SumSplit(o, c, Two(w - 1));
    MergeStep(v, n, (o + c) % Two(w), m);
    LowBitCases(v % 2, m % 2, c);
  }

  /** The two masked parts, taken together bit by bit. */
  lemma MergeStep(v: nat, n: nat, t: nat, m: nat)
    ensures var r := Or(And(v, n), And(t, m));
      r % 2 == (if (v % 2 == 1 && n % 2 == 1) || (t % 2 == 1 && m % 2 == 1) then 1 else 0)
      && r / 2 == Or(And(v / 2, n / 2), And(t / 2, m / 2))
  {
    hide And, Or;
    AndStep(v, n);
    AndStep(t, m);
    OrStep(And(v, n), And(t, m));
  }

  /** The low bit `o` of `v | ~m` and its carry, for `v` ending in `a` and `m` in `b`. */
  lemma LowBitCases(a: nat, b: nat, c: nat)
    requires a <= 1 && b <= 1 && c <= 1
    ensures var o := if a == 1 || b == 0 then 1 else 0;
      var t := (o + c) % 2;
      (if (a == 1 && b == 0) || (t == 1 && b == 1) then 1 else 0) == (if b == 1 then (a + c) % 2 else a)
      && (o + c) / 2 == (if b == 1 then (a + c) / 2 else c)
  {
  }

  lemma HalfBound(r: nat, w: nat)
    requires w > 0 && r / 2 < Two(w - 1)
    ensures r < Two(w)
  {
  }

  lemma OrBoundNot(v: nat, m: nat, w: nat)
    requires v < Two(w) && m < Two(w)
    ensures Or(v, Not(m, w)) < Two(w)
  {
    hide Or;
    OrBound(v, Not(m, w), w);
  }

  /** Adding a carry to the low bit and passing it on, modulo `2 * p`. */
  lemma SumSplit(o: nat, c: nat, p: nat)
    requires c <= 1 && p > 0 && o < 2 * p
    ensures var t := (o + c) % (2 * p);
      t % 2 == (o % 2 + c) % 2 && t / 2 == (o / 2 + (o % 2 + c) / 2) % p
  {
    Wrap(o + c, 2 * p);
    Wrap((o + c) / 2, p);
  }

  lemma SumJoin(a: nat, k: nat, c: nat, p: nat)
    requires a <= 1 && c <= 1 && p > 0 && k < p
    ensures (a + 2 * k + c) % (2 * p) == (a + c) % 2 + 2 * ((k + (a + c) / 2) % p)
  {
    var o := a + 2 * k;
    assert o % 2 == a && o / 2 == k;
    SumSplit(o, c, p);
  }

  lemma CompressStep(v: nat, m: nat, w: nat)
    requires w > 0
    ensures m % 2 == 1 ==> Compress(v, m, w) == v % 2 + 2 * Compress(v / 2, m / 2, w - 1)
    ensures m % 2 == 0 ==> Compress(v, m, w) == Compress(v / 2, m / 2, w - 1)
    ensures m % 2 == 1 ==> Two(PopCount(m, w)) == 2 * Two(PopCount(m / 2, w - 1))
    ensures m % 2 == 0 ==> PopCount(m, w) == PopCount(m / 2, w - 1)
  {
  }

  lemma Wrap(x: nat, p: nat)
    requires p > 0 && x <= p
    ensures x % p == if x == p then 0 else x
  {
    if x == p {
      ModIs(x, 1, 0, p);
    } else {
      ModIs(x, 0, x, p);
    }
  }

  lemma {:induction false} CompressBound(v: nat, m: nat, w: nat)
    ensures Compress(v, m, w) < Two(PopCount(m, w))
  {
    if w == 0 {
    } else {
      CompressBound(v / 2, m / 2, w - 1);
    }
  }

  /** Rolling leaves the unmasked bits alone and adds the carry to the number the masked bits spell,
      wrapping at its width: the carry crosses every gap of the mask. */
  lemma {:induction false} RollAdds(v: nat, m: nat, w: nat, c: nat)
    requires v < Two(w) && m < Two(w) && c <= 1
    ensures var r := Roll(v, m, w, c);
      r < Two(w)
      && And(r, Not(m, w)) == And(v, Not(m, w))
      && Compress(r, m, w) == (Compress(v, m, w) + c) % Two(PopCount(m, w))
  {
    hide And, Or, Not, Roll, Compress, PopCount, Two;
    var r := Roll(v, m, w, c);
    if w == 0 {
      RollNothing(c);
    } else {
      RollHalves(v, m, w, c);
      RollAdds(v / 2, m / 2, w - 1, if m % 2 == 1 then (v % 2 + c) / 2 else c);
      HalfBound(r, w);
      KeptStep(r, v, m, w);
      AddedStep(r, v, m, w, c);
    }
  }

  lemma KeptStep(r: nat, v: nat, m: nat, w: nat)
    requires w > 0 && m < Two(w)
    requires m % 2 == 0 ==> r % 2 == v % 2
    requires m / 2 < Two(w - 1) && And(r / 2, Not(m / 2, w - 1)) == And(v / 2, Not(m / 2, w - 1))
    ensures And(r, Not(m, w)) == And(v, Not(m, w))
  {
    hide And, Not;
    NotStep(m, w);
    AndStep(v, Not(m, w));
    AndStep(r, Not(m, w));
  }

  lemma AddedStep(r: nat, v: nat, m: nat, w: nat, c: nat)
    requires w > 0 && c <= 1
    requires m % 2 == 1 ==> r % 2 == (v % 2 + c) % 2
    requires var c' := if m % 2 == 1 then (v % 2 + c) / 2 else c;
      Compress(r / 2, m / 2, w - 1) == (Compress(v / 2, m / 2, w - 1) + c') % Two(PopCount(m / 2, w - 1))
    ensures Compress(r, m, w) == (Compress(v, m, w) + c) % Two(PopCount(m, w))
  {
    hide Compress, PopCount, Two;
    CompressStep(v, m, w);
    CompressStep(r, m, w);
    if m % 2 == 1 {
      CompressBound(v / 2, m / 2, w - 1);
      SumJoin(v % 2, Compress(v / 2, m / 2, w - 1), c, Two(PopCount(m / 2, w - 1)));
    }
  }

  lemma RollNothing(c: nat)
    ensures Two(0) == 1 && Roll(0, 0, 0, c) == 0
    ensures Compress(0, 0, 0) == (Compress(0, 0, 0) + c) % Two(PopCount(0, 0))
  {
    ModIs(c, c, 0, 1);
  }

  /** `increment_bitmask` on 32-bit words. */
  function IncrementBitmask(value: nat, mask: nat): (r: nat)
    requires value < Two(WORD) && mask < Two(WORD)
    ensures r < Two(WORD)
    ensures And(r, Not(mask, WORD)) == And(value, Not(mask, WORD))
    ensures Compress(r, mask, WORD) == (Compress(value, mask, WORD) + 1) % Two(PopCount(mask, WORD))
  {
    RollAdds(value, mask, WORD, 1);
    Roll(value, mask, WORD, 1)
  }

  /** `k` roll steps. */
  function Rolled(value: nat, mask: nat, k: nat): (r: nat)
    requires value < Two(WORD) && mask < Two(WORD)
    ensures r < Two(WORD)
  {
    if k == 0 then value else IncrementBitmask(Rolled(value, mask, k - 1), mask)
  }

  /** How many different words rolling under `mask` can give. */
  function Period(mask: nat): (p: nat)
    ensures p > 0
  {
    Two(PopCount(mask, WORD))
  }

  function Number(value: nat, mask: nat): (n: nat)
    ensures n < Period(mask)
  {
    CompressBound(value, mask, WORD);
    Compress(value, mask, WORD)
  }

  ghost predicate SameOutside(x: nat, y: nat, mask: nat)
    requires mask < Two(WORD)
  {
    And(x, Not(mask, WORD)) == And(y, Not(mask, WORD))
  }

  lemma NumberStep(r: nat, m: nat)
    requires r < Two(WORD) && m < Two(WORD)
    ensures Number(IncrementBitmask(r, m), m) == (Number(r, m) + 1) % Period(m)
    ensures forall v {:trigger SameOutside(r, v, m)} ::
        SameOutside(r, v, m) ==> SameOutside(IncrementBitmask(r, m), v, m)
  {
    hide And, Not, Compress, PopCount, Two;
  }

  lemma {:induction false} RolledAdds(v: nat, m: nat, k: nat)
    requires v < Two(WORD) && m < Two(WORD)
    ensures SameOutside(Rolled(v, m, k), v, m)
    ensures Number(Rolled(v, m, k), m) == (Number(v, m) + k) % Period(m)
  {
    hide And, Not, Compress, PopCount, Two, IncrementBitmask;
    if k == 0 {
      ModIs(Number(v, m), 0, Number(v, m), Period(m));
    } else {
      RolledAdds(v, m, k - 1);
      var r := Rolled(v, m, k - 1);
      assert Rolled(v, m, k) == IncrementBitmask(r, m);
      hide Rolled, SameOutside, Period;
      NextMod(Number(v, m) + k - 1, Number(r, m), Period(m));
      NumberStep(r, m);
    }
  }

  /** A word is its unmasked bits and the number its masked bits spell. */
  lemma {:induction false} Determined(x: nat, y: nat, m: nat, w: nat)
    requires x < Two(w) && y < Two(w) && m < Two(w)
    requires And(x, Not(m, w)) == And(y, Not(m, w))
    requires Compress(x, m, w) == Compress(y, m, w)
    ensures x == y
  {
    hide And, Not;
    if w == 0 {
    } else {
      NotStep(m, w);
      AndStep(x, Not(m, w));
      AndStep(y, Not(m, w));
      Determined(x / 2, y / 2, m / 2, w - 1);
    }
  }

  /** Adding `k` below `p` to `a` below `p`, modulo `p`. */
  lemma SumMod(a: nat, k: nat, p: nat)
    requires a < p && k <= p
    ensures (a + k) % p == if a + k < p then a + k else a + k - p
  {
    if a + k < p {
      ModIs(a + k, 0, a + k, p);
    } else {
      ModIs(a + k, 1, a + k - p, p);
    }
  }

  /** Rolling comes back to the start after exactly one pass over the masked patterns ... */
  lemma RollingReturns(v: nat, m: nat)
    requires v < Two(WORD) && m < Two(WORD)
    ensures Rolled(v, m, Period(m)) == v
  {
    hide And, Not, Compress, PopCount, Two, Rolled;
    RolledAdds(v, m, Period(m));
    SumMod(Number(v, m), Period(m), Period(m));
    Determined(Rolled(v, m, Period(m)), v, m, WORD);
  }

  /** ... and in between it meets every word that agrees with it outside the mask, once. */
  lemma RollingVisitsOnce(v: nat, m: nat, x: nat)
    requires v < Two(WORD) && m < Two(WORD) && x < Two(WORD)
    ensures SameOutside(x, v, m) <==> exists k :: 0 <= k < Period(m) && Rolled(v, m, k) == x
    ensures forall i, j :: 0 <= i < j < Period(m) ==> Rolled(v, m, i) != Rolled(v, m, j)
  {
    hide And, Not, Compress, PopCount, Two, Rolled;
    var p, a := Period(m), Number(v, m);
    if SameOutside(x, v, m) {
      var k := if Number(x, m) >= a then Number(x, m) - a else Number(x, m) + p - a;
      RolledAdds(v, m, k);
      SumMod(a, k, p);
      Determined(Rolled(v, m, k), x, m, WORD);
    }
    forall k | 0 <= k < p ensures SameOutside(Rolled(v, m, k), v, m) {
      RolledAdds(v, m, k);
    }
    forall i, j | 0 <= i < j < p ensures Rolled(v, m, i) != Rolled(v, m, j) {
      RolledAdds(v, m, i);
      RolledAdds(v, m, j);
      SumMod(a, i, p);
      SumMod(a, j, p);
    }
  }
}
