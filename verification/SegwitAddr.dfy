/** Segwit addresses: `convert_bits`, `segwit_addr_encode` and `segwit_addr_decode`
    (BIP-173, section "Segwit address format"). */
module SegwitAddr {
  import opened Wrappers
  import opened Numerals
  import Polymod
  import Bech32

  /** 2^32: the accumulator of `convert_bits` wraps here. */
  const WRAP: nat := 0x1_0000_0000

  // ---------------------------------------------------------------- powers of two and remainders

  lemma PowWrap()
    ensures Pow(2, 32) == WRAP
  {
    assert Pow(2, 8) == 256;
    PowAdd(2, 8, 8);
    PowAdd(2, 16, 16);
  }

  lemma Nest(v: nat, a: nat, b: nat, c: nat, d: nat, p: nat, m: nat, pm: nat)
    requires pm == p * m && v == a * pm + b && b == c * p + d
    ensures v == (a * m + c) * p + d
  {
    assert a * (p * m) == (a * m) * p;
    MulAdd(a * m, c, p);
  }

  /** A remainder by a multiple of `p` has the remainder by `p`. */
  lemma ModMod(v: nat, p: nat, m: nat, pm: nat)
    requires p > 0 && pm == p * m && pm > 0
    ensures v % pm % p == v % p
  {
    DivId(v, pm);
    DivId(v % pm, p);
    Nest(v, v / pm, v % pm, v % pm / p, v % pm % p, p, m, pm);
    ModIs(v, v / pm * m + v % pm / p, v % pm % p, p);
  }

  lemma WrapMod(v: nat, e: nat)
    requires e <= 32
    ensures v % WRAP % Pow(2, e) == v % Pow(2, e)
  {
    hide Pow;
    PowAdd(2, e, 32 - e);
    PowWrap();
    ModMod(v, Pow(2, e), Pow(2, 32 - e), WRAP);
  }

  lemma Spread(val: nat, k: nat, r: nat, p: nat, q: nat, x: nat, pq: nat)
    requires pq == p * q && val == k * p + r && r < p && x < q
    ensures val * q + x == k * pq + (r * q + x) && r * q + x < pq
  {
    MulAdd(k * p, r, q);
    MulAssoc(k, p, q);
    MulStep(r, p, q);
  }

  /** The last `a + b` bits of `val` shifted left by `b` and filled with `x`. */
  lemma AppendBits(val: nat, a: nat, b: nat, x: nat)
    requires x < Pow(2, b)
    ensures (val * Pow(2, b) + x) % Pow(2, a + b) == val % Pow(2, a) * Pow(2, b) + x
  {
    hide Pow;
    var p, q, pq := Pow(2, a), Pow(2, b), Pow(2, a + b);
    PowAdd(2, a, b);
    DivId(val, p);
    Spread(val, val / p, val % p, p, q, x, pq);
    ModIs(val * q + x, val / p, val % p * q + x, pq);
  }

  /** Shifting a wrapping word left by `s` and filling with `x` shifts its last `bits` bits exactly. */
  lemma ShiftMod(val: nat, bits: nat, s: nat, x: nat)
    requires bits + s <= 32 && x < Pow(2, s)
    ensures (val * Pow(2, s) + x) % WRAP % Pow(2, bits + s) == val % Pow(2, bits) * Pow(2, s) + x
  {
    hide Pow;
    WrapMod(val * Pow(2, s) + x, bits + s);
    AppendBits(val, bits, s, x);
  }

  lemma ShiftUp(val: nat, bits: nat, s: nat)
    requires bits + s <= 32
    ensures val * Pow(2, s) % WRAP % Pow(2, bits + s) == val % Pow(2, bits) * Pow(2, s)
  {
    hide Pow;
    ShiftMod(val, bits, s, 0);
  }

  /** The last `a + b` bits are the `a` bits above the last `b`, and the last `b`. */
  lemma SplitBits(val: nat, a: nat, b: nat)
    ensures val % Pow(2, a + b) == val / Pow(2, b) % Pow(2, a) * Pow(2, b) + val % Pow(2, b)
  {
    hide Pow;
    DivId(val, Pow(2, b));
    AppendBits(val / Pow(2, b), a, b, val % Pow(2, b));
  }

  // ---------------------------------------------------------------- regrouping bits

  /** The last `len` digits of `v`. */
  ghost function FixedDigits(v: nat, b: nat, len: nat): (s: seq<nat>)
    requires b > 0
    ensures |s| == len
    decreases len
  {
    if len == 0 then [] else FixedDigits(v / b, b, len - 1) + [v % b]
  }

  lemma {:induction false} FixedDigitsOf(s: seq<nat>, b: nat)
    requires Digits(s, b) && b > 0
    ensures FixedDigits(Value(s, b), b, |s|) == s
  {
    if s == [] {
    } else {
      var n := |s| - 1;
      FixedDigitsOf(s[..n], b);
      ModIs(Value(s, b), Value(s[..n], b), s[n], b);
      assert s == s[..n] + [s[n]];
    }
  }

  /** `a` read as bits is `b` read as bits followed by `r` zeros. */
  ghost predicate Shifted(a: seq<nat>, abits: nat, b: seq<nat>, bbits: nat, r: nat) {
    |a| * abits == |b| * bbits + r
    && Value(a, Pow(2, abits)) == Value(b, Pow(2, bbits)) * Pow(2, r)
  }

  /** The first `i` groups of `inp` are `out` and the last `bits` bits of the accumulator. */
  ghost predicate Regrouping(inp: seq<nat>, i: nat, inbits: nat, out: seq<nat>, outbits: nat, val: nat, bits: nat) {
    i <= |inp| && Digits(out, Pow(2, outbits)) && |out| * outbits + bits == i * inbits
    && Value(inp[..i], Pow(2, inbits)) == Value(out, Pow(2, outbits)) * Pow(2, bits) + val % Pow(2, bits)
  }

  lemma Absorb(inp: seq<nat>, i: nat, inbits: nat, out: seq<nat>, outbits: nat, val: nat, bits: nat)
    requires Regrouping(inp, i, inbits, out, outbits, val, bits)
    requires i < |inp| && inp[i] < Pow(2, inbits) && bits + inbits <= 32
    ensures Regrouping(inp, i + 1, inbits, out, outbits, (val * Pow(2, inbits) + inp[i]) % WRAP, bits + inbits)
  {
    hide Pow, Value;
    assert inp[..i + 1] == inp[..i] + [inp[i]];
    ValueSnoc(inp[..i], inp[i], Pow(2, inbits));
    ShiftMod(val, bits, inbits, inp[i]);
    AbsorbValue(Value(out, Pow(2, outbits)), bits, inbits, val % Pow(2, bits), inp[i]);
    MulAdd(i, 1, inbits);
  }

  lemma AbsorbValue(v: nat, bits: nat, s: nat, rem: nat, x: nat)
    ensures (v * Pow(2, bits) + rem) * Pow(2, s) + x == v * Pow(2, bits + s) + (rem * Pow(2, s) + x)
  {
    hide Pow;
    PowAdd(2, bits, s);
    MulAdd(v * Pow(2, bits), rem, Pow(2, s));
    MulAssoc(v, Pow(2, bits), Pow(2, s));
  }

  lemma Emit(inp: seq<nat>, i: nat, inbits: nat, out: seq<nat>, outbits: nat, val: nat, bits: nat)
    requires Regrouping(inp, i, inbits, out, outbits, val, bits) && bits >= outbits
    ensures var d := val / Pow(2, bits - outbits) % Pow(2, outbits);
      Regrouping(inp, i, inbits, out + [d], outbits, val, bits - outbits)
  {
    hide Pow, Value;
    var b := bits - outbits;
    var d := val / Pow(2, b) % Pow(2, outbits);
    SplitBits(val, outbits, b);
    ValueSnoc(out, d, Pow(2, outbits));
    EmitValue(Value(out, Pow(2, outbits)), outbits, b, d, val % Pow(2, b));
    MulAdd(|out|, 1, outbits);
    DivId(val / Pow(2, b), Pow(2, outbits));
  }

  lemma EmitValue(v: nat, outbits: nat, b: nat, d: nat, rem: nat)
    ensures v * Pow(2, outbits + b) + (d * Pow(2, b) + rem) == (v * Pow(2, outbits) + d) * Pow(2, b) + rem
  {
    hide Pow;
    PowAdd(2, outbits, b);
    MulAdd(v * Pow(2, outbits), d, Pow(2, b));
    MulAssoc(v, Pow(2, outbits), Pow(2, b));
  }

  lemma PadValue(v: nat, bits: nat, s: nat, rem: nat)
    ensures v * Pow(2, bits + s) + rem * Pow(2, s) == (v * Pow(2, bits) + rem) * Pow(2, s)
  {
    hide Pow;
    AbsorbValue(v, bits, s, rem, 0);
  }

  lemma PadNone(inp: seq<nat>, inbits: nat, out: seq<nat>, outbits: nat, val: nat)
    requires Regrouping(inp, |inp|, inbits, out, outbits, val, 0)
    ensures Shifted(out, outbits, inp, inbits, 0)
  {
    assert Pow(2, 0) == 1;
    hide Pow, Value;
    assert inp[..|inp|] == inp;
  }

  /** The padded last group. */
  lemma Pad(inp: seq<nat>, inbits: nat, out: seq<nat>, outbits: nat, val: nat, bits: nat, d: nat)
    requires Regrouping(inp, |inp|, inbits, out, outbits, val, bits) && 0 < bits < outbits <= 32
    requires d == val * Pow(2, outbits - bits) % WRAP % Pow(2, outbits)
    ensures Digits(out + [d], Pow(2, outbits)) && Shifted(out + [d], outbits, inp, inbits, outbits - bits)
  {
    hide Pow, Value;
    var s := outbits - bits;
    assert inp[..|inp|] == inp;
    ShiftUp(val, bits, s);
    ValueSnoc(out, d, Pow(2, outbits));
    PadValue(Value(out, Pow(2, outbits)), bits, s, val % Pow(2, bits));
    MulAdd(|out|, 1, outbits);
    DivId(val * Pow(2, s) % WRAP, Pow(2, outbits));
  }

  /** Without padding the left-over bits must be zero and fewer than a group. */
  lemma NoPad(inp: seq<nat>, inbits: nat, out: seq<nat>, outbits: nat, val: nat, bits: nat)
    requires Regrouping(inp, |inp|, inbits, out, outbits, val, bits) && bits < outbits <= 32
    ensures bits == |inp| * inbits % outbits
    ensures val * Pow(2, outbits - bits) % WRAP % Pow(2, outbits) == 0
       <==> Value(inp, Pow(2, inbits)) % Pow(2, bits) == 0
    ensures Value(inp, Pow(2, inbits)) % Pow(2, bits) == 0 ==> Shifted(inp, inbits, out, outbits, bits)
  {
    hide Pow, Value;
    var s, rem := outbits - bits, val % Pow(2, bits);
    assert inp[..|inp|] == inp;
    ModIs(|inp| * inbits, |out|, bits, outbits);
    ShiftUp(val, bits, s);
    DivId(val, Pow(2, bits));
    ModIs(Value(inp, Pow(2, inbits)), Value(out, Pow(2, outbits)), rem, Pow(2, bits));
    if rem > 0 {
      MulMonotone(1, rem, Pow(2, s));
    }
  }

  /** `convert_bits` for group sizes of up to eight bits. */
  method ConvertBits(inp: seq<nat>, inbits: nat, outbits: nat, pad: bool) returns (ok: bool, out: seq<nat>)
    requires 1 <= inbits <= 8 && 1 <= outbits <= 8 && Digits(inp, Pow(2, inbits))
    ensures ok ==> Digits(out, Pow(2, outbits))
    ensures pad ==> ok && exists r :: 0 <= r < outbits && Shifted(out, outbits, inp, inbits, r)
    ensures !pad ==> var r := |inp| * inbits % outbits;
      (ok <==> r < inbits && Value(inp, Pow(2, inbits)) % Pow(2, r) == 0)
      && (ok ==> Shifted(inp, inbits, out, outbits, r))
  {
    hide Pow, Value, Regrouping;
    var val: nat, bits: nat := 0, 0;
    out := [];
    var i := 0;
    Begin(inp, inbits, outbits);
    while i < |inp|
      invariant i <= |inp| && bits < outbits
      invariant Regrouping(inp, i, inbits, out, outbits, val, bits)
    {
      Absorb(inp, i, inbits, out, outbits, val, bits);
      val := (val * Pow(2, inbits) + inp[i]) % WRAP;
      bits := bits + inbits;
      i := i + 1;
      while bits >= outbits
        invariant Regrouping(inp, i, inbits, out, outbits, val, bits)
      {
        Emit(inp, i, inbits, out, outbits, val, bits);
        bits := bits - outbits;
        out := out + [val / Pow(2, bits) % Pow(2, outbits)];
      }
    }
    RegroupingDigits(inp, i, inbits, out, outbits, val, bits);
    if pad {
      if bits != 0 {
        var d := val * Pow(2, outbits - bits) % WRAP % Pow(2, outbits);
        Pad(inp, inbits, out, outbits, val, bits, d);
        out := out + [d];
      } else {
        PadNone(inp, inbits, out, outbits, val);
      }
    } else {
      NoPad(inp, inbits, out, outbits, val, bits);
      if val * Pow(2, outbits - bits) % WRAP % Pow(2, outbits) != 0 || bits >= inbits {
        return false, out;
      }
    }
    ok := true;
  }

  lemma Begin(inp: seq<nat>, inbits: nat, outbits: nat)
    ensures Regrouping(inp, 0, inbits, [], outbits, 0, 0)
  {
    assert inp[..0] == [];
  }

  lemma RegroupingDigits(inp: seq<nat>, i: nat, inbits: nat, out: seq<nat>, outbits: nat, val: nat, bits: nat)
    requires Regrouping(inp, i, inbits, out, outbits, val, bits)
    ensures Digits(out, Pow(2, outbits))
  {}

  // ---------------------------------------------------------------- bytes to symbols and back

  lemma Bases()
    ensures Pow(2, 5) == 32 && Pow(2, 8) == 256
  {
    assert Pow(2, 3) == 8;
  }

  lemma {:induction false} PowPow(b: nat, k: nat, n: nat, c: nat)
    requires c == Pow(b, k)
    ensures Pow(c, n) == Pow(b, k * n)
  {
    if n == 0 {
    } else {
      PowPow(b, k, n - 1, c);
      PowAdd(b, k, k * (n - 1));
      MulAdd(n - 1, 1, k);
      assert k * n == k + k * (n - 1);
    }
  }

  lemma {:induction false} FixedDigitsValue(v: nat, b: nat, len: nat)
    requires b > 0 && v < Pow(b, len)
    ensures Digits(FixedDigits(v, b, len), b) && Value(FixedDigits(v, b, len), b) == v
    decreases len
  {
    if len == 0 {
    } else {
      DivId(v, b);
      QuotientBound(v, b, Pow(b, len - 1));
      FixedDigitsValue(v / b, b, len - 1);
      ValueSnoc(FixedDigits(v / b, b, len - 1), v % b, b);
    }
  }

  lemma QuotientBound(v: nat, b: nat, p: nat)
    requires b > 0 && v < b * p
    ensures v / b < p
  {
    DivId(v, b);
    if v / b >= p {
      MulMonotone(p, v / b, b);
    }
  }

  /** The 5-bit groups of a program, padded with zeros. */
  ghost function ToSymbols(prog: seq<nat>): (vs: seq<nat>) {
    var m := (8 * |prog| + 4) / 5;
    FixedDigits(Value(prog, 256) * Pow(2, 5 * m - 8 * |prog|), 32, m)
  }

  /** The bytes of a program, if nothing but up to four zero bits is left over. */
  ghost function FromSymbols(vs: seq<nat>): Option<seq<nat>> {
    var r := 5 * |vs| % 8;
    if r < 5 && Value(vs, 32) % Pow(2, r) == 0 then
      DivId(Value(vs, 32), Pow(2, r));
      Some(FixedDigits(Value(vs, 32) / Pow(2, r), 256, 5 * |vs| / 8))
    else None
  }

  lemma ToSymbolsIs(prog: seq<nat>, vs: seq<nat>, r: nat)
    requires Digits(prog, 256) && Digits(vs, 32) && r < 5 && Shifted(vs, 5, prog, 8, r)
    ensures vs == ToSymbols(prog)
  {
    Bases();
    hide Pow, Value;
    assert |vs| == (8 * |prog| + 4) / 5;
    FixedDigitsOf(vs, 32);
  }

  lemma ToSymbolsShifted(prog: seq<nat>)
    requires Digits(prog, 256)
    ensures Digits(ToSymbols(prog), 32)
    ensures Shifted(ToSymbols(prog), 5, prog, 8, 5 * |ToSymbols(prog)| - 8 * |prog|)
    ensures 0 <= 5 * |ToSymbols(prog)| - 8 * |prog| < 5
  {
    Bases();
    hide Pow, Value;
    var m, n := (8 * |prog| + 4) / 5, |prog|;
    var r := 5 * m - 8 * n;
    ValueBound(prog, 256);
    PowPow(2, 8, n, 256);
    PowPow(2, 5, m, 32);
    PowAdd(2, 8 * n, r);
    MulStep(Value(prog, 256), Pow(256, n), Pow(2, r));
    FixedDigitsValue(Value(prog, 256) * Pow(2, r), 32, m);
  }

  lemma FromSymbolsIs(vs: seq<nat>, prog: seq<nat>)
    requires Digits(vs, 32) && Digits(prog, 256) && 5 * |vs| % 8 < 5
    requires Shifted(vs, 5, prog, 8, 5 * |vs| % 8)
    ensures FromSymbols(vs) == Some(prog)
  {
    Bases();
    hide Pow, Value;
    var r := 5 * |vs| % 8;
    ModIs(Value(vs, 32), Value(prog, 256), 0, Pow(2, r));
    FixedDigitsOf(prog, 256);
  }

  lemma FromSymbolsShifted(vs: seq<nat>)
    requires Digits(vs, 32) && FromSymbols(vs).Some?
    ensures Digits(FromSymbols(vs).value, 256)
    ensures Shifted(vs, 5, FromSymbols(vs).value, 8, 5 * |vs| % 8)
  {
    Bases();
    hide Pow, Value;
    var r, n, m := 5 * |vs| % 8, 5 * |vs| / 8, |vs|;
    var q := Value(vs, 32) / Pow(2, r);
    DivId(Value(vs, 32), Pow(2, r));
    ValueBound(vs, 32);
    PowPow(2, 5, m, 32);
    PowPow(2, 8, n, 256);
    PowAdd(2, r, 8 * n);
    QuotientBound(Value(vs, 32), Pow(2, r), Pow(256, n));
    FixedDigitsValue(q, 256, n);
  }

  /** Regrouping to symbols and back is the identity, in both directions. */
  lemma SymbolsRoundTrip(prog: seq<nat>)
    requires Digits(prog, 256)
    ensures Digits(ToSymbols(prog), 32) && FromSymbols(ToSymbols(prog)) == Some(prog)
  {
    hide Pow, Value, ToSymbols, FromSymbols;
    ToSymbolsShifted(prog);
    var vs := ToSymbols(prog);
    ModIs(5 * |vs|, |prog|, 5 * |vs| - 8 * |prog|, 8);
    FromSymbolsIs(vs, prog);
  }

  lemma BytesRoundTrip(vs: seq<nat>)
    requires Digits(vs, 32) && FromSymbols(vs).Some?
    ensures Digits(FromSymbols(vs).value, 256) && ToSymbols(FromSymbols(vs).value) == vs
  {
    hide Pow, Value, ToSymbols;
    FromSymbolsShifted(vs);
    ToSymbolsIs(FromSymbols(vs).value, vs, 5 * |vs| % 8);
  }

  // ---------------------------------------------------------------- addresses

  ghost predicate ProgramLength(witver: int, n: nat) {
    2 <= n <= 40 && (witver == 0 ==> n == 20 || n == 32)
  }

  function EncodingFor(witver: int): Polymod.Encoding {
    if witver > 0 then Polymod.M else Polymod.Plain
  }

  /** The data part: the version cast to a byte, then the program. */
  ghost function AddressData(witver: int, prog: seq<nat>): seq<nat> {
    [witver % 256] + ToSymbols(prog)
  }

  ghost function Encode(hrp: string, witver: int, prog: seq<nat>): Option<string> {
    var data := AddressData(witver, prog);
    if witver <= 16 && ProgramLength(witver, |prog|) && Bech32.Encodable(hrp, data)
    then Some(Bech32.Text(hrp, data, EncodingFor(witver)))
    else None
  }

  ghost function Decode(hrp: string, addr: string): Option<(int, seq<nat>)> {
    var r := Bech32.Decode(addr);
    if r.None? then None
    else
      var d := r.value;
      if 1 <= |d.data| <= 65 && hrp == d.hrp && d.data[0] <= 16 && d.enc == EncodingFor(d.data[0]) then
        var p := FromSymbols(d.data[1..]);
        if p.Some? && ProgramLength(d.data[0], |p.value|) then Some((d.data[0], p.value)) else None
      else None
  }

  /** An encoded address decodes to its version and program, and to nothing else: exactly when
      the prefix is not empty and the version is not negative, neither of which the encoder checks. */
  lemma RoundTrip(hrp: string, witver: int, prog: seq<nat>)
    requires Digits(prog, 256) && Encode(hrp, witver, prog).Some?
    ensures Decode(hrp, Encode(hrp, witver, prog).value) == Some((witver, prog)) <==> hrp != "" && witver >= 0
  {
    hide ToSymbols, FromSymbols, Bech32.Text, Bech32.Decode, Bech32.Encodable;
    var data := AddressData(witver, prog);
    Bech32.EncodeDecode(hrp, data, EncodingFor(witver));
    SymbolsRoundTrip(prog);
    assert data[1..] == ToSymbols(prog);
    ToSymbolsShifted(prog);
  }

  /** The encoder writes the same address for version -256 as for version 0. */
  lemma NegativeVersion(prog: seq<nat>)
    requires Digits(prog, 256) && |prog| == 20
    ensures Encode("bc", -256, prog).Some? && Decode("bc", Encode("bc", -256, prog).value) == Some((0, prog))
  {
    hide ToSymbols, FromSymbols, Bech32.Text, Bech32.Decode, Decode;
    ToSymbolsShifted(prog);
    assert AddressData(-256, prog) == AddressData(0, prog);
    RoundTrip("bc", 0, prog);
  }

  /** Every address that decodes is, up to case, the encoding of its version and program. */
  lemma Canonical(hrp: string, addr: string)
    requires Decode(hrp, addr).Some?
    ensures var (witver, prog) := Decode(hrp, addr).value;
      Digits(prog, 256) && 0 <= witver <= 16 && Encode(hrp, witver, prog) == Some(Bech32.Lower(addr))
  {
    hide ToSymbols, FromSymbols, Bech32.Text, Bech32.Decode, Bech32.Lower;
    Bech32.DecodeEncode(addr);
    var d := Bech32.Decode(addr).value;
    var vs := d.data[1..];
    BytesRoundTrip(vs);
    assert d.data == [d.data[0]] + vs;
  }

  /** Exactly what the decoder accepts for a prefix: the addresses, in one case, of witness programs as BIP-141 and
      BIP-173 have them. */
  lemma DecodeAccepts(hrp: string, addr: string, witver: int, prog: seq<nat>)
    ensures Decode(hrp, addr) == Some((witver, prog))
       <==> (Bech32.NoUpper(addr) || Bech32.NoLower(addr)) && hrp != "" && 0 <= witver <= 16
            && Digits(prog, 256) && 2 <= |prog| <= 40 && (witver == 0 ==> |prog| == 20 || |prog| == 32)
            && Encode(hrp, witver, prog) == Some(Bech32.Lower(addr))
  {
    hide ToSymbols, FromSymbols, Encode, Bech32.Text, Bech32.Decode, Bech32.Lower, Bech32.NoUpper, Bech32.NoLower;
    if Decode(hrp, addr).Some? {
      Canonical(hrp, addr);
      Bech32.DecodedCase(addr);
      DecodedNonempty(hrp, addr);
    }
    if (Bech32.NoUpper(addr) || Bech32.NoLower(addr)) && hrp != "" && 0 <= witver && Digits(prog, 256)
      && Encode(hrp, witver, prog) == Some(Bech32.Lower(addr))
    {
      RoundTrip(hrp, witver, prog);
      Bech32.CaseIgnored(addr);
    }
  }

  lemma DecodedNonempty(hrp: string, addr: string)
    requires Decode(hrp, addr).Some?
    ensures hrp != ""
  {
    hide ToSymbols, FromSymbols, Bech32.Text, Bech32.Decode, Bech32.Lower;
    Bech32.DecodeEncode(addr);
  }

  /** Version 0 is checked the old way and every later one the new way, whichever side one looks from. */
  lemma VersionsChecksum(hrp: string, addr: string)
    requires Decode(hrp, addr).Some?
    ensures var d := Bech32.Decode(addr).value;
      d.enc == if Decode(hrp, addr).value.0 == 0 then Polymod.Plain else Polymod.M
  {
    hide Bech32.Decode, FromSymbols;
  }

  lemma VersionsWritten(hrp: string, witver: int, prog: seq<nat>)
    requires Digits(prog, 256) && Encode(hrp, witver, prog).Some? && hrp != ""
    ensures Bech32.Decode(Encode(hrp, witver, prog).value).Some?
    ensures var d := Bech32.Decode(Encode(hrp, witver, prog).value).value;
      d.enc == if witver <= 0 then Polymod.Plain else Polymod.M
  {
    hide ToSymbols, Bech32.Text, Bech32.Decode, Bech32.Encodable;
    Bech32.EncodeDecode(hrp, AddressData(witver, prog), EncodingFor(witver));
  }

  /** `segwit_addr_encode`. */
  method SegwitAddrEncode(hrp: string, witver: int, witprog: seq<nat>) returns (ok: bool, output: string)
    requires Digits(witprog, 256)
    ensures ok <==> Encode(hrp, witver, witprog).Some?
    ensures ok ==> Encode(hrp, witver, witprog) == Some(output)
  {
    hide ToSymbols, FromSymbols, Bech32.Text, Bech32.Encodable, Pow, Value;
    output := "";
    var enc := Polymod.Plain;
    if witver > 16 { return false, ""; }
    if witver == 0 && |witprog| != 20 && |witprog| != 32 { return false, ""; }
    if |witprog| < 2 || |witprog| > 40 { return false, ""; }
    if witver > 0 { enc := Polymod.M; }
    Bases();
    var converted, groups := ConvertBits(witprog, 8, 5, true);
    ghost var r :| 0 <= r < 5 && Shifted(groups, 5, witprog, 8, r);
    ToSymbolsIs(witprog, groups, r);
    ok, output := Bech32.Bech32Encode(hrp, [witver % 256] + groups, enc);
  }

  /** `segwit_addr_decode`. */
  method SegwitAddrDecode(hrp: string, addr: string) returns (r: Option<(int, seq<nat>)>)
    ensures r == Decode(hrp, addr)
  {
    hide ToSymbols, Bech32.Decode, Pow, Value;
    var d := Bech32.Bech32Decode(addr);
    if d.None? { return None; }
    var Decoded(enc, hrpActual, data) := d.value;
    if |data| == 0 || |data| > 65 { return None; }
    if hrp != hrpActual { return None; }
    if data[0] > 16 { return None; }
    if data[0] == 0 && enc != Polymod.Plain { return None; }
    if data[0] > 0 && enc != Polymod.M { return None; }
    Bases();
    DecodedSymbols(addr);
    var ok, prog := ConvertBits(data[1..], 5, 8, false);
    Unconverted(data[1..], ok, prog);
    if !ok { return None; }
    if |prog| < 2 || |prog| > 40 { return None; }
    if data[0] == 0 && |prog| != 20 && |prog| != 32 { return None; }
    return Some((data[0], prog));
  }

  lemma DecodedSymbols(addr: string)
    requires Bech32.Decode(addr).Some?
    ensures Digits(Bech32.Decode(addr).value.data, 32)
  {
    hide Bech32.Decode, Bech32.Text;
    Bech32.DecodeEncode(addr);
  }

  /** The unpadded regrouping is `FromSymbols`. */
  lemma Unconverted(vs: seq<nat>, ok: bool, prog: seq<nat>)
    requires Digits(vs, 32)
    requires var r := |vs| * 5 % 8;
      (ok <==> r < 5 && Value(vs, 32) % Pow(2, r) == 0)
      && (ok ==> Digits(prog, 256) && Shifted(vs, 5, prog, 8, r))
    ensures FromSymbols(vs) == if ok then Some(prog) else None
  {
    hide Pow, Value;
    assert |vs| * 5 % 8 == 5 * |vs| % 8;
    if ok {
      FromSymbolsIs(vs, prog);
    }
  }
}
