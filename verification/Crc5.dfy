/** The 5-bit check of the chips' frames (polynomial x^5 + x^2 + 1), bit by bit. */
module Crc5 {

  /** The shift register, highest bit first. */
  datatype Register = Register(c4: bool, c3: bool, c2: bool, c1: bool, c0: bool)

  const ZERO: Register := Register(false, false, false, false, false)
  const ONES: Register := Register(true, true, true, true, true)

  function Next(r: Register, bit: bool): Register {
    var n := r.c4 != bit;
    Register(r.c3, r.c2, r.c1 != n, r.c0, n)
  }

  function Feed(r: Register, bits: seq<bool>): Register
    decreases bits
  {
    if bits == [] then r else Feed(Next(r, bits[0]), bits[1..])
  }

  function Bits(r: Register): seq<bool> {
    [r.c4, r.c3, r.c2, r.c1, r.c0]
  }

  lemma {:induction false} FeedConcat(r: Register, a: seq<bool>, b: seq<bool>)
    ensures Feed(r, a + b) == Feed(Feed(r, a), b)
    decreases a
  {
    if a == [] {
      assert a + b == b;
    } else {
      assert (a + b)[1..] == a[1..] + b;
      FeedConcat(Next(r, a[0]), a[1..], b);
    }
  }

  lemma FeedFive(r: Register, x: seq<bool>)
    requires |x| == 5
    ensures Feed(r, x) == Next(Next(Next(Next(Next(r, x[0]), x[1]), x[2]), x[3]), x[4])
  {
    FeedStep(r, x, 0);
    FeedStep(Next(r, x[0]), x, 1);
    FeedStep(Next(Next(r, x[0]), x[1]), x, 2);
    FeedStep(Next(Next(Next(r, x[0]), x[1]), x[2]), x, 3);
    FeedStep(Next(Next(Next(Next(r, x[0]), x[1]), x[2]), x[3]), x, 4);
    assert x[0..] == x && x[5..] == [];
  }

  lemma FeedStep(r: Register, x: seq<bool>, i: nat)
    requires i < |x|
    ensures Feed(r, x[i..]) == Feed(Next(r, x[i]), x[i + 1..])
  {
    assert x[i..][1..] == x[i + 1..];
  }

  /** Whatever the register holds, five bits bring it to zero exactly when they are its own. */
  lemma CheckBitsUnique(r: Register, x: seq<bool>)
    requires |x| == 5
    ensures Feed(r, x) == ZERO <==> x == Bits(r)
  {
    hide Feed;
    FeedFive(r, x);
    assert x == [x[0], x[1], x[2], x[3], x[4]];
  }

  function Plus(a: Register, b: Register): Register {
    Register(a.c4 != b.c4, a.c3 != b.c3, a.c2 != b.c2, a.c1 != b.c1, a.c0 != b.c0)
  }

  function Difference(a: seq<bool>, b: seq<bool>): (d: seq<bool>)
    requires |a| == |b|
    ensures |d| == |a|
  {
    seq(|a|, i requires 0 <= i < |a| => a[i] != b[i])
  }

  lemma NextLinear(r: Register, s: Register, x: bool, y: bool)
    ensures Plus(Next(r, x), Next(s, y)) == Next(Plus(r, s), x != y)
  {
  }

  lemma DifferenceRest(a: seq<bool>, b: seq<bool>)
    requires |a| == |b| > 0
    ensures Difference(a, b) != [] && Difference(a, b)[0] == (a[0] != b[0])
    ensures Difference(a, b)[1..] == Difference(a[1..], b[1..])
  {
  }

  /** The register is linear: two runs differ by the run of their difference. */
  lemma {:induction false} FeedLinear(r: Register, s: Register, a: seq<bool>, b: seq<bool>)
    requires |a| == |b|
    ensures Plus(Feed(r, a), Feed(s, b)) == Feed(Plus(r, s), Difference(a, b))
    decreases a
  {
    if a == [] {
    } else {
      hide Next, Plus, Difference;
      DifferenceRest(a, b);
      NextLinear(r, s, a[0], b[0]);
      FeedLinear(Next(r, a[0]), Next(s, b[0]), a[1..], b[1..]);
    }
  }

  ghost predicate Quiet(d: seq<bool>) {
    forall i :: 0 <= i < |d| ==> !d[i]
  }

  /** Without further differences a difference neither appears nor goes away. */
  lemma {:induction false} QuietKeeps(r: Register, d: seq<bool>)
    requires Quiet(d)
    ensures Feed(r, d) == ZERO <==> r == ZERO
    decreases d
  {
    if d == [] {
    } else {
      QuietKeeps(Next(r, false), d[1..]);
    }
  }

  /** A difference confined to five bits, if there is any, is never lost. */
  lemma BurstLeavesTrace(d: seq<bool>, i: nat)
    requires i <= |d| && Quiet(d[..i]) && (i + 5 <= |d| ==> Quiet(d[i + 5..]))
    ensures Feed(ZERO, d) == ZERO <==> Quiet(d)
  {
    hide Feed;
    var pad: seq<bool> := [false, false, false, false, false];
    var e := d[i..] + pad;
    assert d == d[..i] + d[i..];
    FeedConcat(ZERO, d[..i], d[i..]);
    QuietKeeps(ZERO, d[..i]);
    FeedConcat(ZERO, d[i..], pad);
    QuietKeeps(Feed(ZERO, d[i..]), pad);
    BurstTail(d, i, e);
    assert e == e[..5] + e[5..];
    FeedConcat(ZERO, e[..5], e[5..]);
    QuietKeeps(Feed(ZERO, e[..5]), e[5..]);
    CheckBitsUnique(ZERO, e[..5]);
  }

  lemma BurstTail(d: seq<bool>, i: nat, e: seq<bool>)
    requires i <= |d| && Quiet(d[..i]) && (i + 5 <= |d| ==> Quiet(d[i + 5..]))
    requires e == d[i..] + [false, false, false, false, false]
    ensures |e| >= 5 && Quiet(e[5..]) && (e[..5] == Bits(ZERO) <==> Quiet(d))
  {
    forall k | 0 <= k < |e| - 5 ensures !e[5..][k] {
      if i + 5 + k < |d| {
        assert e[5 + k] == d[i + 5..][k];
      }
    }
    if e[..5] == Bits(ZERO) {
      forall k | 0 <= k < |d| ensures !d[k] {
        if k < i {
          assert d[k] == d[..i][k];
        } else if k < i + 5 {
          assert d[k] == e[..5][k - i];
        } else {
          assert d[k] == d[i + 5..][k - i - 5];
        }
      }
    }
    if Quiet(d) {
      assert forall k :: 0 <= k < 5 ==> e[k] == if i + k < |d| then d[i + k] else false;
      assert e[..5] == Bits(ZERO);
    }
  }

  /** What one flipped bit leaves in the register. */
  const FLIP: Register := Register(false, false, true, false, true)

  function Shift(r: Register, k: nat): Register
    decreases k
  {
    if k == 0 then r else Shift(Next(r, false), k - 1)
  }

  lemma {:induction false} ShiftAdd(r: Register, j: nat, k: nat)
    ensures Shift(r, j + k) == Shift(Shift(r, j), k)
    decreases j
  {
    if j == 0 {
    } else {
      ShiftAdd(Next(r, false), j - 1, k);
    }
  }

  lemma {:induction false} FeedQuiet(r: Register, d: seq<bool>)
    requires Quiet(d)
    ensures Feed(r, d) == Shift(r, |d|)
    decreases d
  {
    if d == [] {
    } else {
      FeedQuiet(Next(r, false), d[1..]);
    }
  }

  /** The trace of a flipped bit comes round after 31 quiet bits, and not before. */
  lemma FlipPeriod(k: nat)
    requires 0 < k <= 31
    ensures Shift(FLIP, k) == FLIP <==> k == 31
  {
    OrbitEnd();
    OrbitMiddle();
    OrbitStart();
    if k < 31 {
      AvoidsMeans(FLIP, 30, k);
    }
  }

  /** The traces after 10 and 20 quiet bits. */
  const TENTH: Register := Register(true, true, true, true, true)
  const TWENTIETH: Register := Register(true, true, false, false, true)

  lemma OrbitEnd()
    ensures Avoids(TWENTIETH, 10) && Shift(TWENTIETH, 11) == FLIP
  {
    hide Avoids, Shift;
    var r := Five(TWENTIETH);
    AvoidsNone(Five(r));
    AvoidsFive(r, 0);
    AvoidsFive(TWENTIETH, 5);
    ShiftFive(TWENTIETH, 6);
    ShiftFive(r, 1);
    ShiftOne(Five(r));
  }

  lemma OrbitMiddle()
    requires Avoids(TWENTIETH, 10) && Shift(TWENTIETH, 11) == FLIP
    ensures Avoids(TENTH, 20) && Shift(TENTH, 21) == FLIP
  {
    hide Avoids, Shift;
    var r := Five(TENTH);
    AvoidsFive(r, 10);
    AvoidsFive(TENTH, 15);
    ShiftFive(TENTH, 16);
    ShiftFive(r, 11);
  }

  lemma OrbitStart()
    requires Avoids(TENTH, 20) && Shift(TENTH, 21) == FLIP
    ensures Avoids(FLIP, 30) && Shift(FLIP, 31) == FLIP
  {
    hide Avoids, Shift;
    var r := Five(FLIP);
    AvoidsFive(r, 20);
    AvoidsFive(FLIP, 25);
    ShiftFive(FLIP, 26);
    ShiftFive(r, 21);
  }

  lemma AvoidsNone(r: Register)
    ensures Avoids(r, 0)
  {
  }

  lemma ShiftOne(r: Register)
    ensures Shift(r, 1) == Next(r, false)
  {
    assert Shift(Next(r, false), 0) == Next(r, false);
  }

  function Five(r: Register): Register {
    Next(Next(Next(Next(Next(r, false), false), false), false), false)
  }

  lemma ShiftFive(r: Register, n: nat)
    ensures Shift(r, n + 5) == Shift(Five(r), n)
  {
    hide Next;
    assert Shift(r, n + 5) == Shift(Next(Next(r, false), false), n + 3);
    var s := Next(Next(r, false), false);
    assert Shift(s, n + 3) == Shift(Next(Next(s, false), false), n + 1);
  }

  lemma AvoidsFive(r: Register, n: nat)
    requires Avoids(Five(r), n)
    requires var s := Next(r, false); var t := Next(s, false); var u := Next(t, false); var v := Next(u, false);
      FLIP != s && FLIP != t && FLIP != u && FLIP != v && FLIP != Next(v, false)
    ensures Avoids(r, n + 5)
  {
    hide Next;
    var s := Next(r, false);
    var t := Next(s, false);
    var u := Next(t, false);
    var v := Next(u, false);
    assert Avoids(v, n + 1);
    assert Avoids(u, n + 2);
    assert Avoids(t, n + 3);
    assert Avoids(s, n + 4);
  }

  /** The next `n` shifts of `r` do not meet the trace of a flipped bit. */
  predicate Avoids(r: Register, n: nat)
    decreases n
  {
    n == 0 || (Next(r, false) != FLIP && Avoids(Next(r, false), n - 1))
  }

  lemma {:induction false} AvoidsMeans(r: Register, n: nat, k: nat)
    requires Avoids(r, n) && 0 < k <= n
    ensures Shift(r, k) != FLIP
    decreases n
  {
    if k == 1 {
      assert Shift(Next(r, false), 0) == Next(r, false);
    } else {
      AvoidsMeans(Next(r, false), n - 1, k - 1);
    }
  }

  lemma {:induction false} FlipReturns(k: nat)
    ensures Shift(FLIP, k) == FLIP <==> k % 31 == 0
  {
    if k == 0 {
    } else if k < 31 {
      FlipPeriod(k);
    } else {
      FlipPeriod(31);
      ShiftAdd(FLIP, 31, k - 31);
      FlipReturns(k - 31);
    }
  }

  /** Two flipped bits escape notice exactly when a multiple of 31 places lies between them. */
  lemma TwoFlips(d: seq<bool>, i: nat, j: nat)
    requires i < j < |d| && forall k :: 0 <= k < |d| ==> (d[k] <==> k == i || k == j)
    ensures Feed(ZERO, d) == ZERO <==> (j - i) % 31 == 0
  {
    hide Feed, Shift, Quiet;
    var gap := d[i + 1..j];
    TwoFlipsParts(d, i, j);
    FeedConcat(ZERO, d[..i], d[i..]);
    QuietKeeps(ZERO, d[..i]);
    FeedStep(ZERO, d, i);
    FeedConcat(FLIP, gap, d[j..]);
    FeedQuiet(FLIP, gap);
    var r := Shift(FLIP, |gap|);
    FeedStep(r, d, j);
    QuietKeeps(Next(r, true), d[j + 1..]);
    ShiftAdd(FLIP, |gap|, 1);
    OneShift(r);
    FlipReturns(|gap| + 1);
  }

  lemma TwoFlipsParts(d: seq<bool>, i: nat, j: nat)
    requires i < j < |d| && forall k :: 0 <= k < |d| ==> (d[k] <==> k == i || k == j)
    ensures d == d[..i] + d[i..] && d[i + 1..] == d[i + 1..j] + d[j..]
    ensures d[i] && d[j] && Quiet(d[..i]) && Quiet(d[i + 1..j]) && Quiet(d[j + 1..])
  {
  }

  lemma OneShift(r: Register)
    ensures Shift(r, 1) == Next(r, false)
    ensures Next(r, true) == ZERO <==> Shift(r, 1) == FLIP
  {
    ShiftOne(r);
  }
}
