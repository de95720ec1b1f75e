/** Positional numerals, most significant digit first, in an arbitrary base.
    Base58 text, the 32-bit words of its decoder and the bit groups of a segwit
    program are all read through `Value`. */
module Numerals {

  function Pow(b: nat, e: nat): (p: nat)
    ensures b > 0 ==> p > 0
  {
    if e == 0 then 1
    else
      var q := Pow(b, e - 1);
      assert b > 0 ==> b * q > 0;
      b * q
  }

  ghost predicate Digits(s: seq<nat>, b: nat) {
    forall i :: 0 <= i < |s| ==> s[i] < b
  }

  /** The number written by `s` in base `b`. */
  ghost function Value(s: seq<nat>, b: nat): nat {
    if s == [] then 0 else Value(s[..|s| - 1], b) * b + s[|s| - 1]
  }

  ghost predicate AllZero(s: seq<nat>) {
    forall i :: 0 <= i < |s| ==> s[i] == 0
  }

  lemma MulAssoc(x: int, y: int, z: int)
    ensures x * (y * z) == (x * y) * z
  {}

  lemma MulAdd(x: int, y: int, z: int)
    ensures (x + y) * z == x * z + y * z
  {}

  lemma {:induction false} PowAdd(b: nat, m: nat, n: nat)
    ensures Pow(b, m + n) == Pow(b, m) * Pow(b, n)
  {
    if m == 0 {
    } else {
      PowAdd(b, m - 1, n);
      assert m - 1 + n == (m + n) - 1;
      MulAssoc(b, Pow(b, m - 1), Pow(b, n));
    }
  }

  lemma PowMonotone(b: nat, m: nat, n: nat)
    requires b > 0 && m <= n
    ensures Pow(b, m) <= Pow(b, n)
  {
    PowAdd(b, m, n - m);
    MulAtLeast(Pow(b, m), Pow(b, n - m));
  }

  lemma MulAtLeast(x: nat, y: nat)
    requires y >= 1
    ensures x * y >= x
  {}

  lemma MulMonotone(x: nat, y: nat, z: nat)
    requires x <= y
    ensures x * z <= y * z
  {}

  lemma {:induction false} ValueConcat(s: seq<nat>, t: seq<nat>, b: nat)
    ensures Value(s + t, b) == Value(s, b) * Pow(b, |t|) + Value(t, b)
  {
    if t == [] {
      assert s + t == s;
    } else {
      var u := t[..|t| - 1];
      assert (s + t)[..|s + t| - 1] == s + u;
      ValueConcat(s, u, b);
      Rebase(Value(s, b), Pow(b, |u|), Value(u, b), b);
    }
  }

  lemma Rebase(p: nat, q: nat, v: nat, b: nat)
    ensures (p * q + v) * b == p * (b * q) + v * b
  {
    MulAdd(p * q, v, b);
    MulAssoc(p, b, q);
    MulAssoc(p, q, b);
  }

  /** Reading one more digit on the right. */
  lemma ValueSnoc(s: seq<nat>, d: nat, b: nat)
    ensures Value(s + [d], b) == Value(s, b) * b + d
  {
    assert (s + [d])[..|s + [d]| - 1] == s;
  }

  lemma ValueSingle(d: nat, b: nat)
    ensures Value([d], b) == d
  {
    assert [d][..0] == [];
  }

  lemma ValueCons(d: nat, s: seq<nat>, b: nat)
    ensures Value([d] + s, b) == d * Pow(b, |s|) + Value(s, b)
  {
    ValueConcat([d], s, b);
    ValueSingle(d, b);
  }

  lemma {:induction false} ValueZeros(s: seq<nat>, b: nat)
    requires AllZero(s)
    ensures Value(s, b) == 0
  {
    if s == [] {
    } else {
      ValueZeros(s[..|s| - 1], b);
    }
  }

  /** Leading zeros do not count. */
  lemma ValueSkipZeros(s: seq<nat>, k: nat, b: nat)
    requires k <= |s| && AllZero(s[..k])
    ensures Value(s, b) == Value(s[k..], b)
  {
    assert s == s[..k] + s[k..];
    ValueConcat(s[..k], s[k..], b);
    ValueZeros(s[..k], b);
  }

  lemma {:induction false} ValueBound(s: seq<nat>, b: nat)
    requires Digits(s, b)
    ensures Value(s, b) < Pow(b, |s|)
  {
    if s == [] {
    } else {
      var u := s[..|s| - 1];
      ValueBound(u, b);
      MulStep(Value(u, b), Pow(b, |u|), b);
    }
  }

  /** A nonzero leading digit makes the number at least `b` to the power of its other digits. */
  lemma ValueLeading(s: seq<nat>, b: nat)
    requires s != [] && s[0] > 0
    ensures Value(s, b) >= Pow(b, |s| - 1)
  {
    assert s == [s[0]] + s[1..];
    ValueCons(s[0], s[1..], b);
    MulMonotone(1, s[0], Pow(b, |s| - 1));
  }

  lemma MulStep(x: nat, y: nat, b: nat)
    requires x < y
    ensures x * b + b <= y * b
  {
    MulMonotone(x + 1, y, b);
  }

  lemma DivModUnique(x: nat, y: nat, d: nat, e: nat, b: nat)
    requires x * b + d == y * b + e && d < b && e < b
    ensures x == y && d == e
  {
    if x < y {
      MulStep(x, y, b);
    } else if y < x {
      MulStep(y, x, b);
    }
  }

  /** Numerals of equal length are determined by their value. */
  lemma {:induction false} ValueInjective(s: seq<nat>, t: seq<nat>, b: nat)
    requires Digits(s, b) && Digits(t, b) && |s| == |t|
    requires Value(s, b) == Value(t, b)
    ensures s == t
  {
    if s == [] {
    } else {
      var u, w := s[..|s| - 1], t[..|t| - 1];
      DivModUnique(Value(u, b), Value(w, b), s[|s| - 1], t[|t| - 1], b);
      ValueInjective(u, w, b);
      assert s == u + [s[|s| - 1]] && t == w + [t[|t| - 1]];
    }
  }

  /** The same for numerals without leading zeros, whatever their lengths. */
  lemma CanonicalInjective(s: seq<nat>, t: seq<nat>, b: nat)
    requires Digits(s, b) && Digits(t, b) && b > 0
    requires (s == [] || s[0] > 0) && (t == [] || t[0] > 0)
    requires Value(s, b) == Value(t, b)
    ensures s == t
  {
    if |s| < |t| {
      ValueBound(s, b);
      ValueLeading(t, b);
      PowMonotone(b, |s|, |t| - 1);
    } else if |t| < |s| {
      ValueBound(t, b);
      ValueLeading(s, b);
      PowMonotone(b, |t|, |s| - 1);
    } else {
      ValueInjective(s, t, b);
    }
  }

  lemma {:induction false} ValuePrefix(s: seq<nat>, k: nat, b: nat)
    requires k <= |s| && b > 0
    ensures Value(s[..k], b) <= Value(s, b)
  {
    if k == |s| {
      assert s[..k] == s;
    } else {
      var u := s[..|s| - 1];
      ValuePrefix(u, k, b);
      assert u[..k] == s[..k];
      MulAtLeast(Value(u, b), b);
    }
  }

  lemma CarryArithmetic(b: nat, m: nat, add: nat, x: nat, y: nat, carry: nat, out: nat,
                        p: nat, low: nat, lowNew: nat, bp: nat, vx: nat, vy: nat, vOut: nat)
    requires y + out * b == x * m + carry
    requires carry * p + lowNew == low * m + add
    requires bp == b * p && vx == x * p + low && vy == y * p + lowNew && vOut == out * bp + vy
    ensures vOut == vx * m + add
  {
    MulAssoc(out, b, p);
    MulAdd(y, out * b, p);
    MulAdd(x * m, carry, p);
    MulAdd(x * p, low, m);
    MulAssoc(x, m, p);
    MulAssoc(x, p, m);
  }

  /** One digit of a schoolbook `low * m + add`, done from the right: the lower digits are
      finished and left `carry` above them; digit `x` absorbs it, becomes `y` and leaves `out`. */
  lemma CarryDigit(low: seq<nat>, lowNew: seq<nat>, b: nat, m: nat, add: nat,
                   x: nat, y: nat, carry: nat, out: nat)
    requires |low| == |lowNew|
    requires y + out * b == x * m + carry
    requires Value([carry] + lowNew, b) == Value(low, b) * m + add
    ensures Value([out] + ([y] + lowNew), b) == Value([x] + low, b) * m + add
  {
    ValueCons(carry, lowNew, b);
    ValueCons(x, low, b);
    ValueCons(y, lowNew, b);
    ValueCons(out, [y] + lowNew, b);
    PowStep(b, |low|);
    CarryArithmetic(b, m, add, x, y, carry, out, Pow(b, |low|), Value(low, b), Value(lowNew, b),
                    Pow(b, |low| + 1), Value([x] + low, b), Value([y] + lowNew, b),
                    Value([out] + ([y] + lowNew), b));
  }

  lemma PowStep(b: nat, e: nat)
    ensures Pow(b, e + 1) == b * Pow(b, e)
  {}

  /** Writing digit `j` in place, seen as one more digit on the left of the finished ones. */
  lemma UpdateSplit(was: seq<nat>, now: seq<nat>, j: nat, y: nat)
    requires j < |was| == |now| && now[..j + 1] == was[..j + 1]
    ensures now[j] == was[j]
    ensures now[j := y][..j] == was[..j]
    ensures now[j := y][j..] == [y] + now[j + 1..] && was[j..] == [was[j]] + was[j + 1..]
  {
    assert now[j] == now[..j + 1][j];
    assert now[j := y][..j] == now[..j + 1][..j];
    assert was[..j] == was[..j + 1][..j];
  }

  /** A carry above `s` shows in the size of the number. */
  lemma CarryOut(s: seq<nat>, carry: nat, b: nat)
    requires b > 0
    ensures carry == 0 ==> Value([carry] + s, b) == Value(s, b)
    ensures carry > 0 ==> Value([carry] + s, b) >= Pow(b, |s|)
  {
    ValueCons(carry, s, b);
    if carry > 0 {
      MulMonotone(1, carry, Pow(b, |s|));
    }
  }

  lemma DivId(v: nat, p: nat)
    requires p > 0
    ensures v == v / p * p + v % p && 0 <= v % p < p && v / p >= 0
  {}

  lemma ModIs(v: nat, q: nat, r: nat, p: nat)
    requires r < p && v == q * p + r
    ensures v / p == q && v % p == r
  {
    DivId(v, p);
    DivModUnique(q, v / p, r, v % p, p);
  }

  /** The next residue. */
  lemma NextMod(a: nat, x: nat, p: nat)
    requires p > 0 && x == a % p
    ensures (x + 1) % p == (a + 1) % p
  {
    DivId(a, p);
    var q := a / p;
    if x + 1 == p {
      MulAdd(q, 1, p);
      ModIs(a + 1, q + 1, 0, p);
      ModIs(x + 1, 1, 0, p);
    } else {
      ModIs(a + 1, q, x + 1, p);
      ModIs(x + 1, 0, x + 1, p);
    }
  }

  // ---------------------------------------------------------------- bytes, lowest first

  type Byte = n: nat | n < 256

  /** The low `k` bytes of `x`. */
  function LowBytes(x: nat, k: nat): (r: seq<Byte>)
    ensures |r| == k
    decreases k
  {
    if k == 0 then [] else [x % 256] + LowBytes(x / 256, k - 1)
  }

  /** The number a byte string writes. */
  ghost function LittleEndian(s: seq<Byte>): nat {
    if s == [] then 0 else s[0] + 256 * LittleEndian(s[1..])
  }

  /** A number that fits is what its bytes write. */
  lemma {:induction false} LowBytesValue(x: nat, k: nat)
    requires x < Pow(256, k)
    ensures LittleEndian(LowBytes(x, k)) == x
    decreases k
  {
    if k == 0 {
    } else {
      LowBytesValue(x / 256, k - 1);
      assert LowBytes(x, k)[1..] == LowBytes(x / 256, k - 1);
    }
  }

  lemma Shift(b: nat, p: nat)
    ensures 256 * (b * p) == b * (256 * p)
  {}

  lemma {:induction false} LittleEndianSnoc(s: seq<Byte>, b: Byte)
    ensures LittleEndian(s + [b]) == LittleEndian(s) + b * Pow(256, |s|)
  {
    if s != [] {
      assert (s + [b])[1..] == s[1..] + [b];
      LittleEndianSnoc(s[1..], b);
      Shift(b, Pow(256, |s| - 1));
    } else {
      assert [b][1..] == [];
    }
  }
}
