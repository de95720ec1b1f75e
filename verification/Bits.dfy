/** Bitwise operations on naturals, bit by bit from the low end, as the C code applies them
    to unsigned words. A word of width `w` is a natural below `Two(w)`. */
module Bits {
  import opened Numerals

  function Two(k: nat): (p: nat)
    ensures p > 0
  {
    Pow(2, k)
  }

  function Xor(a: nat, b: nat): nat {
    if a == 0 && b == 0 then 0
    else (if a % 2 != b % 2 then 1 else 0) + 2 * Xor(a / 2, b / 2)
  }

  lemma {:induction false} XorComm(a: nat, b: nat)
    ensures Xor(a, b) == Xor(b, a)
  {
    if a == 0 && b == 0 {
    } else {
      XorComm(a / 2, b / 2);
    }
  }

  lemma {:induction false} XorZero(a: nat)
    ensures Xor(a, 0) == a && Xor(0, a) == a
  {
    if a == 0 {
    } else {
      XorZero(a / 2);
    }
  }

  lemma {:induction false} XorSelf(a: nat)
    ensures Xor(a, a) == 0
  {
    if a == 0 {
    } else {
      XorSelf(a / 2);
    }
  }

  lemma XorStep(a: nat, b: nat)
    ensures Xor(a, b) % 2 == (if a % 2 != b % 2 then 1 else 0) && Xor(a, b) / 2 == Xor(a / 2, b / 2)
  {
  }

  lemma {:induction false} XorAssoc(a: nat, b: nat, c: nat)
    ensures Xor(Xor(a, b), c) == Xor(a, Xor(b, c))
  {
    if a == 0 && b == 0 && c == 0 {
    } else {
      XorAssoc(a / 2, b / 2, c / 2);
      XorStep(a, b);
      XorStep(b, c);
      XorStep(Xor(a, b), c);
      XorStep(a, Xor(b, c));
    }
  }

  lemma XorSwap(a: nat, b: nat, c: nat, d: nat)
    ensures Xor(Xor(a, b), Xor(c, d)) == Xor(Xor(a, c), Xor(b, d))
  {
    XorAssoc(a, b, Xor(c, d));
    XorAssoc(b, c, d);
    XorComm(b, c);
    XorAssoc(c, b, d);
    XorAssoc(a, c, Xor(b, d));
  }

  /** Two words with no difference are equal. */
  lemma XorZeroIff(a: nat, b: nat)
    ensures Xor(a, b) == 0 <==> a == b
  {
    if Xor(a, b) == 0 {
      XorAssoc(a, b, b);
      XorSelf(b);
      XorZero(a);
      XorZero(b);
    } else {
      XorSelf(a);
    }
  }

  lemma XorCancel(a: nat, b: nat)
    ensures Xor(a, Xor(a, b)) == b
  {
    XorAssoc(a, a, b);
    XorSelf(a);
    XorZero(b);
  }

  lemma XorHalf(a: nat, b: nat, u: nat, v: nat)
    ensures Xor(2 * a + u, 2 * b + v) == 2 * Xor(a + u / 2, b + v / 2) + (if u % 2 != v % 2 then 1 else 0)
  {
    XorStep(2 * a + u, 2 * b + v);
  }

  lemma XorPartsStep(a: nat, b: nat, x: nat, u: nat, v: nat)
    requires Xor(a + u / 2, b + v / 2) == x + Xor(u / 2, v / 2)
    ensures Xor(2 * a + u, 2 * b + v) == 2 * x + Xor(u, v)
  {
    XorHalf(a, b, u, v);
    XorHalf(0, 0, u, v);
  }

  /** `a` shifted left by `k`. */
  function Shl(a: nat, k: nat): nat {
    if k == 0 then a else 2 * Shl(a, k - 1)
  }

  lemma {:induction false} ShlIsProduct(a: nat, k: nat)
    ensures Shl(a, k) == a * Two(k)
  {
    if k == 0 {
    } else {
      ShlIsProduct(a, k - 1);
      MulAssoc(a, 2, Two(k - 1));
    }
  }

  lemma ShlFive(a: nat)
    ensures Shl(a, 5) == 32 * a
  {
    assert Shl(a, 1) == 2 * a && Shl(a, 2) == 4 * a;
    assert Shl(a, 3) == 8 * a && Shl(a, 4) == 16 * a;
  }

  /** Xor of two words cut at bit `k` is xor of their high and low parts. */
  lemma {:induction false} XorParts(a: nat, b: nat, u: nat, v: nat, k: nat)
    requires u < Two(k) && v < Two(k)
    ensures Xor(Shl(a, k) + u, Shl(b, k) + v) == Shl(Xor(a, b), k) + Xor(u, v)
  {
    if k == 0 {
      assert Xor(0, 0) == 0;
    } else {
      hide Xor, Two;
      TwoStep(k);
      XorParts(a, b, u / 2, v / 2, k - 1);
      XorPartsStep(Shl(a, k - 1), Shl(b, k - 1), Shl(Xor(a, b), k - 1), u, v);
    }
  }

  lemma {:induction false} XorBound(a: nat, b: nat, k: nat)
    requires a < Two(k) && b < Two(k)
    ensures Xor(a, b) < Two(k)
  {
    if k == 0 {
    } else {
      XorBound(a / 2, b / 2, k - 1);
      XorStep(a, b);
    }
  }

  function And(a: nat, b: nat): nat {
    if a == 0 || b == 0 then 0
    else (if a % 2 == 1 && b % 2 == 1 then 1 else 0) + 2 * And(a / 2, b / 2)
  }

  function Or(a: nat, b: nat): nat {
    if a == 0 && b == 0 then 0
    else (if a % 2 == 1 || b % 2 == 1 then 1 else 0) + 2 * Or(a / 2, b / 2)
  }

  /** The complement of a word of width `w`. */
  function Not(a: nat, w: nat): nat
    requires a < Two(w)
  {
    Two(w) - 1 - a
  }

  lemma AndStep(a: nat, b: nat)
    ensures And(a, b) % 2 == (if a % 2 == 1 && b % 2 == 1 then 1 else 0) && And(a, b) / 2 == And(a / 2, b / 2)
  {
  }

  lemma OrStep(a: nat, b: nat)
    ensures Or(a, b) % 2 == (if a % 2 == 1 || b % 2 == 1 then 1 else 0) && Or(a, b) / 2 == Or(a / 2, b / 2)
  {
  }

  lemma NotStep(a: nat, w: nat)
    requires w > 0 && a < Two(w)
    ensures a / 2 < Two(w - 1)
    ensures Not(a, w) % 2 == 1 - a % 2 && Not(a, w) / 2 == Not(a / 2, w - 1)
  {
    hide Two;
    TwoStep(w);
  }

  lemma {:induction false} AndBound(a: nat, b: nat, w: nat)
    requires a < Two(w) || b < Two(w)
    ensures And(a, b) < Two(w)
  {
    if w > 0 && a != 0 && b != 0 {
      AndBound(a / 2, b / 2, w - 1);
    }
  }

  lemma {:induction false} OrBound(a: nat, b: nat, w: nat)
    requires a < Two(w) && b < Two(w)
    ensures Or(a, b) < Two(w)
  {
    if w == 0 {
    } else {
      OrBound(a / 2, b / 2, w - 1);
    }
  }

  lemma TwoStep(w: nat)
    requires w > 0
    ensures Two(w) == 2 * Two(w - 1)
  {
  }

  /** The low `k` bits of a word are its remainder, and filling them in is addition. */
  lemma {:induction false} LowBits(a: nat, u: nat, k: nat)
    requires u < Two(k)
    ensures Or(Shl(a, k), u) == Shl(a, k) + u
    ensures And(Shl(a, k) + u, Two(k) - 1) == u
  {
    if k == 0 {
      assert And(a, 0) == 0;
      OrNothing(a);
    } else {
      hide Or, And, Two;
      TwoStep(k);
      LowBits(a, u / 2, k - 1);
      LowBit(Shl(a, k - 1), u, Two(k - 1));
    }
  }

  lemma LowBit(s: nat, u: nat, t: nat)
    requires t > 0 && Or(s, u / 2) == s + u / 2 && And(s + u / 2, t - 1) == u / 2
    ensures Or(2 * s, u) == 2 * s + u && And(2 * s + u, 2 * t - 1) == u
  {
    hide Or, And;
    OrStep(2 * s, u);
    AndStep(2 * s + u, 2 * t - 1);
  }

  lemma {:induction false} OrNothing(a: nat)
    ensures Or(a, 0) == a
  {
    if a == 0 {
    } else {
      OrNothing(a / 2);
    }
  }
}
