/** `crc5` and `crc16` as they run over bytes, and the frames a chip's answer is accepted on. */
module Crc {
  import opened Bits
  import opened Numerals
  import C = Crc5

  const PREAMBLE: nat := 0xAA55

  function Bit(b: bool): nat {
    if b then 1 else 0
  }

  /** The register as the number the source keeps it in. */
  function Number(r: C.Register): (n: nat)
    ensures n < 32 && (n == 0 <==> r == C.ZERO)
  {
    16 * Bit(r.c4) + 8 * Bit(r.c3) + 4 * Bit(r.c2) + 2 * Bit(r.c1) + Bit(r.c0)
  }

  predicate Top(b: nat) {
    b / 128 % 2 == 1
  }

  /** `byte <<= 1`. */
  function Double(b: nat): (r: nat)
    ensures r < 256
  {
    2 * b % 256
  }

  /** The top `n` bits of a byte, highest first. */
  function TopBits(b: nat, n: nat): (r: seq<bool>)
    ensures |r| == n
    decreases n
  {
    if n == 0 then [] else [Top(b)] + TopBits(Double(b), n - 1)
  }

  function ByteBits(b: nat): (r: seq<bool>)
    ensures |r| == 8
  {
    TopBits(b, 8)
  }

  /** The number eight bits write. */
  function ByteValue(s: seq<bool>): nat
    requires |s| == 8
  {
    128 * Bit(s[0]) + 64 * Bit(s[1]) + 32 * Bit(s[2]) + 16 * Bit(s[3])
    + 8 * Bit(s[4]) + 4 * Bit(s[5]) + 2 * Bit(s[6]) + Bit(s[7])
  }

  function AllBits(data: seq<Byte>): (r: seq<bool>)
    ensures |r| == 8 * |data|
  {
    if data == [] then [] else AllBits(data[..|data| - 1]) + ByteBits(data[|data| - 1])
  }

  /** What `crc5` leaves after `data`. */
  function Residue(data: seq<Byte>): (n: nat)
    ensures n < 32
  {
    Number(C.Feed(C.ONES, AllBits(data)))
  }

  /** A byte after `i` shifts to the left. */
  function Left(b: nat, i: nat): nat
    decreases i
  {
    if i == 0 then b else Left(Double(b), i - 1)
  }

  lemma {:induction false} LeftTop(b: nat, n: nat, i: nat)
    requires i < n
    ensures TopBits(b, n)[i] == Top(Left(b, i)) && Left(b, i + 1) == Double(Left(b, i))
    decreases i
  {
    hide Double, Top;
    if i > 0 {
      LeftTop(Double(b), n - 1, i - 1);
    } else {
      assert Left(Double(b), 0) == Double(b);
    }
  }

  lemma Peel(b: nat)
    requires b < 256
    ensures 2 * b == 256 * Bit(Top(b)) + Double(b)
  {
  }

  /** Four bits taken off the top of a byte, and what is left. */
  lemma PeelFour(b: nat, s: seq<bool>)
    requires b < 256 && s == TopBits(b, 4)
    ensures 16 * b == 256 * (8 * Bit(s[0]) + 4 * Bit(s[1]) + 2 * Bit(s[2]) + Bit(s[3])) + Left(b, 4)
  {
    hide Double, Top;
    var b1 := Double(b);
    var b2 := Double(b1);
    var b3 := Double(b2);
    TopFour(b);
    Peel(b);
    Peel(b1);
    Peel(b2);
    Peel(b3);
  }

  lemma TopFour(b: nat)
    ensures var b1 := Double(b); var b2 := Double(b1); var b3 := Double(b2);
      TopBits(b, 4) == [Top(b), Top(b1), Top(b2), Top(b3)] && Left(b, 4) == Double(b3)
  {
    hide Double, Top;
    var b1 := Double(b);
    var b2 := Double(b1);
    var b3 := Double(b2);
    assert Left(b, 4) == Left(b2, 2);
    assert TopBits(b2, 2) == [Top(b2), Top(b3)];
    assert TopBits(b, 4) == [Top(b), Top(b1)] + TopBits(b2, 2);
  }

  lemma {:induction false} TopConcat(b: nat, m: nat, n: nat)
    ensures TopBits(b, m + n) == TopBits(b, m) + TopBits(Left(b, m), n)
    ensures Left(b, m + n) == Left(Left(b, m), n)
    decreases m
  {
    hide Double, Top;
    if m == 0 {
    } else {
      TopConcat(Double(b), m - 1, n);
      assert TopBits(b, m + n) == [Top(b)] + (TopBits(Double(b), m - 1) + TopBits(Left(b, m), n));
    }
  }

  /** The bits of a byte write that byte. */
  lemma ByteValueBits(b: nat)
    requires b < 256
    ensures ByteValue(ByteBits(b)) == b
  {
    hide TopBits, Left, Bit, Double;
    TopConcat(b, 4, 4);
    LeftBound(b, 4);
    LeftBound(Left(b, 4), 4);
    PeelFour(b, TopBits(b, 4));
    PeelFour(Left(b, 4), TopBits(Left(b, 4), 4));
    var s := ByteBits(b);
    assert s[..4] == TopBits(b, 4) && s[4..] == TopBits(Left(b, 4), 4);
    var h, l := 8 * Bit(s[0]) + 4 * Bit(s[1]) + 2 * Bit(s[2]) + Bit(s[3]),
                8 * Bit(s[4]) + 4 * Bit(s[5]) + 2 * Bit(s[6]) + Bit(s[7]);
    assert 16 * b == 256 * h + Left(b, 4);
    assert 16 * Left(b, 4) == 256 * l + Left(Left(b, 4), 4);
  }

  lemma {:induction false} LeftBound(b: nat, i: nat)
    requires b < 256
    ensures Left(b, i) < 256
    decreases i
  {
    hide Double;
    if i == 0 {
    } else {
      LeftBound(Double(b), i - 1);
    }
  }

  /** The source's register expression is one step of the register. */
  lemma StepNumber(r: C.Register, bit: bool)
    ensures var crc := Number(r);
      var newBit := And(Xor(crc / 16, Bit(bit)), 1);
      And(Xor(Or(2 * crc, newBit), 4 * newBit), 31) == Number(C.Next(r, bit))
  {
    hide And, Xor, Or;
    var crc := Number(r);
    var n := Bit(r.c4 != bit);
    NewBit(r, bit);
    OrBit(crc, n);
    ToggleThird(2 * crc + n, n);
    LowFive(Xor(2 * crc + n, 4 * n));
    ShiftNumber(r, n);
  }

  lemma NewBit(r: C.Register, bit: bool)
    ensures And(Xor(Number(r) / 16, Bit(bit)), 1) == Bit(r.c4 != bit)
  {
    hide And, Xor;
    assert Number(r) / 16 == Bit(r.c4);
    AndOne(Xor(Bit(r.c4), Bit(bit)));
    XorStep(Bit(r.c4), Bit(bit));
  }

  lemma ShiftNumber(r: C.Register, n: nat)
    requires n <= 1
    ensures var x := 2 * Number(r) + n;
      var y := if n == 0 then x else if x / 4 % 2 == 0 then x + 4 else x - 4;
      y % 32 == Number(C.Register(r.c3, r.c2, r.c1 != (n == 1), r.c0, n == 1))
  {
    var x := 2 * Number(r) + n;
    var low := Number(C.Register(r.c3, r.c2, r.c1 != (n == 1), r.c0, n == 1));
    ThirdBit(x, 4 * Bit(r.c4) + 2 * Bit(r.c3) + Bit(r.c2), Bit(r.c1), 2 * Bit(r.c0) + n);
    hide Number;
    Toggled(r, n, low);
  }

  lemma ThirdBit(x: nat, high: nat, bit: nat, low: nat)
    requires bit <= 1 && low < 4 && x == 8 * high + 4 * bit + low
    ensures x / 4 % 2 == bit
  {
    ModIs(x, 2 * high + bit, low, 4);
    ModIs(2 * high + bit, high, bit, 2);
  }

  lemma Toggled(r: C.Register, n: nat, low: nat)
    requires n <= 1 && low == Number(C.Register(r.c3, r.c2, r.c1 != (n == 1), r.c0, n == 1))
    ensures var x := 2 * Number(r) + n;
      (if n == 0 then x else if r.c1 then x - 4 else x + 4) % 32 == low
  {
    var x := 2 * Number(r) + n;
    ModIs(if n == 0 then x else if r.c1 then x - 4 else x + 4, Bit(r.c4), low, 32);
  }

  lemma AndOne(z: nat)
    ensures And(z, 1) == z % 2
  {
    AndStep(z, 1);
  }

  lemma OrBit(c: nat, n: nat)
    requires n <= 1
    ensures Or(2 * c, n) == 2 * c + n
  {
    hide Or;
    OrStep(2 * c, n);
    OrNothing(c);
    assert 2 * c / 2 == c && n / 2 == 0;
  }

  lemma ToggleThird(x: nat, n: nat)
    requires n <= 1
    ensures Xor(x, 4 * n) == if n == 0 then x else if x / 4 % 2 == 0 then x + 4 else x - 4
  {
    hide Xor;
    if n == 0 {
      XorZero(x);
    } else {
      XorStep(x, 4);
      XorStep(x / 2, 2);
      XorStep(x / 4, 1);
      XorZero(x / 8);
      assert x / 2 / 2 == x / 4 && x / 4 / 2 == x / 8;
    }
  }

  lemma LowFive(y: nat)
    ensures And(y, 31) == y % 32
  {
    hide And, Shl;
    assert Two(5) == 32;
    ShlFive(y / 32);
    LowBits(y / 32, y % 32, 5);
  }

  lemma AllBitsLast(data: seq<Byte>, b: Byte)
    ensures AllBits(data + [b]) == AllBits(data) + ByteBits(b)
  {
    assert (data + [b])[..|data|] == data;
  }

  /** `crc5` over `len` bytes from `from`. */
  method Crc5(data: array<Byte>, from: nat, len: nat) returns (crc: nat)
    requires len < 256 && from + len <= data.Length
    ensures crc == Residue(data[from..from + len])
  {
    hide And, Or, Xor, AllBits, Number, C.Feed, C.Next, TopBits, Left, Top, Double;
    crc := 0x1F;
    ghost var r := C.ONES;
    var byteCounter := 0;
    StartRegister();
    while byteCounter < len
      invariant 0 <= byteCounter <= len
      invariant r == C.Feed(C.ONES, AllBits(data[from..from + byteCounter])) && crc == Number(r)
    {
      var byte: nat := data[from + byteCounter];
      ghost var b, start := byte, r;
      var bitCounter := 0;
      LeftStart(b);
      FeedNone(start, ByteBits(b));
      while bitCounter < 8
        invariant 0 <= bitCounter <= 8
        invariant byte == Left(b, bitCounter)
        invariant r == C.Feed(start, ByteBits(b)[..bitCounter]) && crc == Number(r)
      {
        LeftTop(b, 8, bitCounter);
        FeedNext(start, ByteBits(b), bitCounter);
        StepNumber(r, Top(byte));
        TopIs(byte);
        var bit := byte / 128 % 2;
        byte := Double(byte);
        var newBit := And(Xor(crc / 16, bit), 1);
        crc := And(Xor(Or(2 * crc, newBit), 4 * newBit), 31);
        r := C.Next(r, ByteBits(b)[bitCounter]);
        bitCounter := bitCounter + 1;
      }
      assert ByteBits(b)[..8] == ByteBits(b);
      FeedByte(data[from..from + byteCounter], b);
      assert data[from..from + (byteCounter + 1)] == data[from..from + byteCounter] + [b];
      byteCounter := byteCounter + 1;
    }
  }

  lemma StartRegister()
    ensures Number(C.ONES) == 0x1F && C.Feed(C.ONES, AllBits([])) == C.ONES
  {
  }

  lemma LeftStart(b: nat)
    ensures Left(b, 0) == b
  {
  }

  lemma TopIs(b: nat)
    ensures Bit(Top(b)) == b / 128 % 2
  {
  }

  lemma FeedNone(r: C.Register, s: seq<bool>)
    ensures C.Feed(r, s[..0]) == r
  {
  }

  lemma FeedNext(r: C.Register, s: seq<bool>, i: nat)
    requires i < |s|
    ensures C.Feed(r, s[..i + 1]) == C.Next(C.Feed(r, s[..i]), s[i])
  {
    hide C.Next;
    assert s[..i + 1] == s[..i] + [s[i]];
    C.FeedConcat(r, s[..i], [s[i]]);
    assert [s[i]][1..] == [];
  }

  lemma FeedByte(data: seq<Byte>, b: Byte)
    ensures C.Feed(C.ONES, AllBits(data + [b])) == C.Feed(C.Feed(C.ONES, AllBits(data)), ByteBits(b))
  {
    hide C.Feed, AllBits, TopBits;
    AllBitsLast(data, b);
    C.FeedConcat(C.ONES, AllBits(data), ByteBits(b));
  }

  // ---------------------------------------------------------------- frames

  /** The bytes of a frame under the check: all after the preamble, their number cut to `uint8_t`. */
  function Checked(frame: seq<Byte>): (r: seq<Byte>)
    requires |frame| >= 2
    ensures |r| == (|frame| - 2) % 256
  {
    frame[2..2 + (|frame| - 2) % 256]
  }

  /** Up to 257 bytes, everything behind the preamble is checked; of a longer frame, a first part of it. */
  lemma CheckedPart(frame: seq<Byte>)
    requires |frame| >= 2
    ensures Checked(frame) <= frame[2..] && (Checked(frame) == frame[2..] <==> |frame| <= 257)
  {
    var k := (|frame| - 2) % 256;
    assert frame[2..][..k] == frame[2..2 + k];
  }

  ghost predicate Accepted(frame: seq<Byte>)
    requires |frame| >= 2
  {
    256 * frame[0] as nat + frame[1] as nat == PREAMBLE && Residue(Checked(frame)) == 0
  }

  /** `receive_work` once the UART has put `received` bytes (negative: an error) into the buffer. */
  method ReceiveWork(buffer: array<Byte>, received: int) returns (ok: bool)
    requires buffer.Length >= 2
    ensures ok <==> received == buffer.Length && Accepted(buffer[..])
  {
    hide Residue;
    if received < 0 {
      return false;
    }
    if received == 0 {
      return false;
    }
    if received != buffer.Length {
      return false;
    }
    var preamble := 256 * buffer[0] as nat + buffer[1] as nat;
    if preamble != PREAMBLE {
      return false;
    }
    var crc := Crc5(buffer, 2, (buffer.Length - 2) % 256);
    assert buffer[..][2..2 + (buffer.Length - 2) % 256] == buffer[2..2 + (buffer.Length - 2) % 256];
    return crc == 0;
  }

  /** The register after the covered bytes and the three flag bits that share a byte with the check value. */
  function CheckValue(prefix: seq<Byte>, flags: nat): (c: nat)
    requires flags < 8
    ensures c < 32
  {
    Number(C.Feed(C.ONES, AllBits(prefix) + ByteBits(32 * flags)[..3]))
  }

  /** Whatever precedes it, exactly one check value brings the register to zero. */
  lemma OneCheckValue(prefix: seq<Byte>, flags: nat, c: nat)
    requires flags < 8 && c < 32
    ensures Residue(prefix + [32 * flags + c]) == 0 <==> c == CheckValue(prefix, flags)
  {
    hide C.Feed, AllBits, TopBits, C.Next;
    var s := ByteBits(32 * flags + c);
    FeedByte(prefix, 32 * flags + c);
    assert s == s[..3] + s[3..];
    var before := C.Feed(C.ONES, AllBits(prefix));
    C.FeedConcat(before, s[..3], s[3..]);
    C.FeedConcat(C.ONES, AllBits(prefix), s[..3]);
    C.CheckBitsUnique(C.Feed(before, s[..3]), s[3..]);
    FlagsAndCheck(flags, c);
    NumberBits(C.Feed(before, s[..3]), s[3..]);
  }

  function FiveValue(s: seq<bool>): nat
    requires |s| == 5
  {
    16 * Bit(s[0]) + 8 * Bit(s[1]) + 4 * Bit(s[2]) + 2 * Bit(s[3]) + Bit(s[4])
  }

  lemma NumberBits(r: C.Register, s: seq<bool>)
    requires |s| == 5
    ensures s == C.Bits(r) <==> FiveValue(s) == Number(r)
  {
    assert s == [s[0], s[1], s[2], s[3], s[4]];
  }

  lemma FlagsAndCheck(flags: nat, c: nat)
    requires flags < 8 && c < 32
    ensures var s := ByteBits(32 * flags + c);
      FiveValue(s[3..]) == c && s[..3] == ByteBits(32 * flags)[..3]
  {
    hide TopBits;
    var s, t := ByteBits(32 * flags + c), ByteBits(32 * flags);
    ByteValueBits(32 * flags + c);
    ByteValueBits(32 * flags);
    SplitValue(s, flags, c);
    SplitValue(t, flags, 0);
    ThreeBits(s, t);
  }

  function ThreeValue(s: seq<bool>): nat
    requires |s| == 8
  {
    4 * Bit(s[0]) + 2 * Bit(s[1]) + Bit(s[2])
  }

  lemma SplitValue(s: seq<bool>, high: nat, low: nat)
    requires |s| == 8 && ByteValue(s) == 32 * high + low && low < 32
    ensures ThreeValue(s) == high && FiveValue(s[3..]) == low
  {
    assert ByteValue(s) == 32 * ThreeValue(s) + FiveValue(s[3..]);
  }

  lemma ThreeBits(s: seq<bool>, t: seq<bool>)
    requires |s| == |t| == 8 && ThreeValue(s) == ThreeValue(t)
    ensures s[..3] == t[..3]
  {
    assert s[..3] == [s[0], s[1], s[2]] && t[..3] == [t[0], t[1], t[2]];
  }

  lemma {:induction false} AllBitsInjective(a: seq<Byte>, b: seq<Byte>)
    requires |a| == |b| && AllBits(a) == AllBits(b)
    ensures a == b
  {
    hide TopBits;
    if a == [] {
    } else {
      var n := |a| - 1;
      assert AllBits(a)[..8 * n] == AllBits(a[..n]) && AllBits(b)[..8 * n] == AllBits(b[..n]);
      assert AllBits(a)[8 * n..] == ByteBits(a[n]) && AllBits(b)[8 * n..] == ByteBits(b[n]);
      AllBitsInjective(a[..n], b[..n]);
      ByteValueBits(a[n]);
      ByteValueBits(b[n]);
      assert a == a[..n] + [a[n]] && b == b[..n] + [b[n]];
    }
  }

  /** The bits of `a` and `b` agree everywhere but in the five places from `i` on. */
  ghost predicate WithinBurst(a: seq<bool>, b: seq<bool>, i: nat)
    requires |a| == |b|
  {
    forall k :: 0 <= k < |a| && (k < i || i + 5 <= k) ==> a[k] == b[k]
  }

  lemma SameResidue(a: seq<Byte>, b: seq<Byte>)
    requires |a| == |b|
    ensures Residue(a) == 0 && C.Feed(C.ZERO, C.Difference(AllBits(a), AllBits(b))) != C.ZERO ==> Residue(b) != 0
    ensures Residue(a) == 0 && C.Feed(C.ZERO, C.Difference(AllBits(a), AllBits(b))) == C.ZERO ==> Residue(b) == 0
  {
    hide C.Feed, AllBits, C.Next;
    C.FeedLinear(C.ONES, C.ONES, AllBits(a), AllBits(b));
  }

  /** An accepted frame of any length stops being accepted when its checked bytes are hit by an error burst
      of at most five bits, whatever happens to the rest of it. */
  lemma BurstRejected(a: seq<Byte>, b: seq<Byte>, i: nat)
    requires |a| == |b| >= 2 && Accepted(a) && Checked(a) != Checked(b)
    requires i <= 8 * |Checked(a)| && WithinBurst(AllBits(Checked(a)), AllBits(Checked(b)), i)
    ensures !Accepted(b)
  {
    hide C.Feed, AllBits, C.Next, Residue, Checked;
    var x, y := AllBits(Checked(a)), AllBits(Checked(b));
    var d := C.Difference(x, y);
    if C.Quiet(d) {
      assert forall k :: 0 <= k < |x| ==> !d[k] && x[k] == y[k];
      assert x == y;
      AllBitsInjective(Checked(a), Checked(b));
    }
    C.BurstLeavesTrace(d, i);
    SameResidue(Checked(a), Checked(b));
  }

  /** Two flipped bits in the checked bytes pass exactly when a multiple of 31 places lies between them, which
      first happens in frames of more than three checked bytes. */
  lemma TwoFlipsPass(a: seq<Byte>, b: seq<Byte>, i: nat, j: nat)
    requires |a| == |b| && Residue(a) == 0 && i < j < 8 * |a|
    requires forall k :: 0 <= k < 8 * |a| ==> (AllBits(a)[k] != AllBits(b)[k] <==> k == i || k == j)
    ensures Residue(b) == 0 <==> (j - i) % 31 == 0
  {
    hide C.Feed, AllBits, C.Next, Residue;
    C.TwoFlips(C.Difference(AllBits(a), AllBits(b)), i, j);
    SameResidue(a, b);
  }

  /** Two frames of four checked bytes that differ in their first and their last bit, 31 places apart, both
      with a zero residue. */
  lemma TwoFlipsUnseen()
    ensures Residue([0, 0, 0, 7]) == 0 && Residue([128, 0, 0, 6]) == 0
  {
    hide Residue, TopBits;
    var a: seq<Byte>, b: seq<Byte> := [0, 0, 0, 7], [128, 0, 0, 6];
    BitsOfFour(a);
    BitsOfFour(b);
    SomeBytes();
    ZeroFrame(a);
    TwoFlipsPass(a, b, 0, 31);
  }

  lemma BitsOfFour(a: seq<Byte>)
    requires |a| == 4
    ensures AllBits(a) == ByteBits(a[0]) + ByteBits(a[1]) + ByteBits(a[2]) + ByteBits(a[3])
  {
    hide TopBits;
    AllBitsLast(a[..0], a[0]);
    AllBitsLast(a[..1], a[1]);
    AllBitsLast(a[..2], a[2]);
    AllBitsLast(a[..3], a[3]);
    assert a[..0] + [a[0]] == a[..1] && a[..1] + [a[1]] == a[..2];
    assert a[..2] + [a[2]] == a[..3] && a[..3] + [a[3]] == a;
  }

  lemma FiveBits(s: seq<bool>, t: seq<bool>)
    requires |s| == |t| == 5 && FiveValue(s) == FiveValue(t)
    ensures s == t
  {
    assert s == [s[0], s[1], s[2], s[3], s[4]] && t == [t[0], t[1], t[2], t[3], t[4]];
  }

  /** Eight bits that write a byte are its bits. */
  lemma BitsAre(s: seq<bool>)
    requires |s| == 8
    ensures ByteValue(s) < 256 && ByteBits(ByteValue(s)) == s
  {
    hide TopBits;
    var t := ByteBits(ByteValue(s));
    assert ByteValue(s) == 32 * ThreeValue(s) + FiveValue(s[3..]);
    ByteValueBits(ByteValue(s));
    SplitValue(t, ThreeValue(s), FiveValue(s[3..]));
    ThreeBits(s, t);
    FiveBits(s[3..], t[3..]);
    assert s == s[..3] + s[3..] && t == t[..3] + t[3..];
  }

  lemma SomeBytes()
    ensures ByteBits(0) == [false, false, false, false] + [false, false, false, false]
    ensures ByteBits(128) == [true, false, false, false] + [false, false, false, false]
    ensures ByteBits(7) == [false, false, false, false] + [false, true, true, true]
    ensures ByteBits(6) == [false, false, false, false] + [false, true, true, false]
  {
    hide TopBits;
    BitsAre([false, false, false, false] + [false, false, false, false]);
    BitsAre([true, false, false, false] + [false, false, false, false]);
    BitsAre([false, false, false, false] + [false, true, true, true]);
    BitsAre([false, false, false, false] + [false, true, true, false]);
  }

  lemma ZeroFrame(a: seq<Byte>)
    requires a == [0, 0, 0, 7]
    ensures Residue(a) == 0
  {
    hide C.Feed, TopBits, AllBits;
    BitsOfFour(a);
    SomeBytes();
    var zeros, check := seq(27, _ => false), [false, false, true, true, true];
    assert AllBits(a) == zeros + check;
    C.FeedConcat(C.ONES, zeros, check);
    C.FeedQuiet(C.ONES, zeros);
    OnesAfter27();
    C.CheckBitsUnique(C.Shift(C.ONES, 27), check);
  }

  lemma OnesAfter27()
    ensures C.Shift(C.ONES, 27) == C.Register(false, false, true, true, true)
  {
    hide C.Avoids;
    C.OrbitEnd();
    C.OrbitMiddle();
    C.ShiftAdd(C.TENTH, 21, 6);
    C.ShiftFive(C.FLIP, 1);
    C.ShiftOne(C.Five(C.FLIP));
  }
}
