/** The grammar of a coinbase transaction after its scriptSig, and the varint reader that
    signals truncation only by moving to the end of the data. */
module CoinbaseSuffix {
  import opened Wrappers
  import opened Numerals

  // ---------------------------------------------------------------- the grammar, by its pieces

  datatype RawOutput = RawOutput(value: seq<Byte>, length: seq<Byte>, script: seq<Byte>)
  {
    ghost predicate Valid() {
      |value| == 8 && IsVarint(length, |script|)
    }

    function Bytes(): seq<Byte> {
      value + length + script
    }

    ghost function Amount(): nat {
      LittleEndian(value)
    }
  }

  datatype RawSuffix = RawSuffix(sequence: seq<Byte>, count: seq<Byte>, outputs: seq<RawOutput>, lockTime: seq<Byte>)
  {
    ghost predicate Valid() {
      |sequence| == 4 && IsVarint(count, |outputs|) && |outputs| >= 1 && |lockTime| == 4
      && AllValid(outputs)
    }

    function Bytes(): seq<Byte> {
      sequence + count + Concat(outputs) + lockTime
    }
  }

  ghost predicate AllValid(outs: seq<RawOutput>) {
    forall i :: 0 <= i < |outs| ==> outs[i].Valid()
  }

  function Concat(outs: seq<RawOutput>): seq<Byte> {
    if outs == [] then [] else outs[0].Bytes() + Concat(outs[1..])
  }

  /** The four spellings of a varint; longer ones than needed are accepted. */
  ghost predicate IsVarint(s: seq<Byte>, v: nat) {
    s != [] && |s| == VarintSize(s[0])
    && v == if s[0] < 0xFD then s[0] else LittleEndian(s[1..])
  }

  function VarintSize(first: Byte): nat {
    if first < 0xFD then 1 else if first == 0xFD then 3 else if first == 0xFE then 5 else 9
  }

  /** The shortest spelling of `v`. */
  function Varint(v: nat): (s: seq<Byte>)
    ensures s != []
  {
    if v < 0xFD then [v]
    else if v < 0x10000 then [0xFD] + LowBytes(v, 2)
    else if v < 0x1_0000_0000 then [0xFE] + LowBytes(v, 4)
    else [0xFF] + LowBytes(v, 8)
  }

  lemma VarintIsOne(v: nat)
    requires v < 0x1_0000_0000_0000_0000
    ensures IsVarint(Varint(v), v)
  {
    hide LowBytes, LittleEndian;
    Widths();
    if 0xFD <= v < 0x10000 {
      LowBytesValue(v, 2);
    } else if 0x10000 <= v < 0x1_0000_0000 {
      LowBytesValue(v, 4);
    } else if 0x1_0000_0000 <= v {
      LowBytesValue(v, 8);
    }
  }

  lemma Widths()
    ensures Pow(256, 2) == 0x10000 && Pow(256, 4) == 0x1_0000_0000 && Pow(256, 8) == 0x1_0000_0000_0000_0000
  {
    PowAdd(256, 2, 2);
    PowAdd(256, 4, 4);
  }

  /** Every spelling is at least as long, and writes a 64-bit number. */
  lemma VarintShortest(s: seq<Byte>, v: nat)
    requires IsVarint(s, v)
    ensures v < 0x1_0000_0000_0000_0000 && |Varint(v)| <= |s|
  {
    hide LittleEndian;
    Widths();
    if s[0] >= 0xFD {
      LittleEndianBound(s[1..]);
    }
  }

  lemma {:induction false} LittleEndianBound(s: seq<Byte>)
    ensures LittleEndian(s) < Pow(256, |s|)
  {
    if s == [] {
    } else {
      LittleEndianBound(s[1..]);
    }
  }

  // ---------------------------------------------------------------- a parser for it

  /** The varint at `o` and the offset after it, if it is complete. */
  ghost function VarintAt(data: seq<Byte>, o: nat): Option<(nat, nat)> {
    if o < |data| && o + VarintSize(data[o]) <= |data| then
      var next := o + VarintSize(data[o]);
      Some((if data[o] < 0xFD then data[o] else LittleEndian(data[o + 1..next]), next))
    else None
  }

  ghost function OutputAt(data: seq<Byte>, o: nat): Option<(RawOutput, nat)> {
    if o + 8 <= |data| && VarintAt(data, o + 8).Some? then
      var (len, p) := VarintAt(data, o + 8).value;
      if p + len <= |data| then
        Some((RawOutput(data[o..o + 8], data[o + 8..p], data[p..p + len]), p + len))
      else None
    else None
  }

  ghost function OutputsAt(data: seq<Byte>, o: nat, n: nat): Option<(seq<RawOutput>, nat)>
    decreases n
  {
    if n == 0 then Some(([], o))
    else
      var first := OutputAt(data, o);
      if first.None? then None
      else
        var rest := OutputsAt(data, first.value.1, n - 1);
        if rest.None? then None else Some(([first.value.0] + rest.value.0, rest.value.1))
  }

  ghost function Parse(data: seq<Byte>, o: nat): Option<RawSuffix> {
    if o + 4 <= |data| && VarintAt(data, o + 4).Some? then
      var (n, p) := VarintAt(data, o + 4).value;
      if n >= 1 && OutputsAt(data, p, n).Some? && OutputsAt(data, p, n).value.1 + 4 == |data| then
        var (outs, q) := OutputsAt(data, p, n).value;
        Some(RawSuffix(data[o..o + 4], data[o + 4..p], outs, data[q..]))
      else None
    else None
  }

  // ---------------------------------------------------------------- the parser decides the grammar

  lemma VarintAtSound(data: seq<Byte>, o: nat)
    requires VarintAt(data, o).Some?
    ensures var (v, p) := VarintAt(data, o).value;
      o < p <= |data| && IsVarint(data[o..p], v)
  {
    var (v, p) := VarintAt(data, o).value;
    assert data[o..p][1..] == data[o + 1..p];
  }

  lemma VarintAtComplete(data: seq<Byte>, o: nat, s: seq<Byte>, v: nat)
    requires o + |s| <= |data| && data[o..o + |s|] == s && IsVarint(s, v)
    ensures VarintAt(data, o) == Some((v, o + |s|))
  {
    assert data[o] == s[0];
    assert s[1..] == data[o + 1..o + |s|];
  }

  lemma OutputAtSound(data: seq<Byte>, o: nat)
    requires OutputAt(data, o).Some?
    ensures var (r, p) := OutputAt(data, o).value;
      o + 9 <= p <= |data| && r.Valid() && data[o..p] == r.Bytes()
  {
    hide LittleEndian, VarintAt;
    VarintAtSound(data, o + 8);
  }

  lemma SliceOf(data: seq<Byte>, o: nat, b: seq<Byte>, from: nat, to: nat)
    requires o + |b| <= |data| && data[o..o + |b|] == b && from <= to <= |b|
    ensures data[o + from..o + to] == b[from..to]
  {
    forall i | from <= i < to
      ensures data[o + i] == b[i]
    {
      assert data[o..o + |b|][i] == data[o + i];
    }
  }

  lemma OutputAtComplete(data: seq<Byte>, o: nat, r: RawOutput)
    requires r.Valid() && o + |r.Bytes()| <= |data| && data[o..o + |r.Bytes()|] == r.Bytes()
    ensures OutputAt(data, o) == Some((r, o + |r.Bytes()|))
  {
    hide LittleEndian, VarintAt;
    var b, p := r.Bytes(), o + 8 + |r.length|;
    SliceOf(data, o, b, 0, 8);
    SliceOf(data, o, b, 8, 8 + |r.length|);
    SliceOf(data, o, b, 8 + |r.length|, |b|);
    assert b[0..8] == r.value && b[8..8 + |r.length|] == r.length && b[8 + |r.length|..|b|] == r.script;
    VarintAtComplete(data, o + 8, r.length, |r.script|);
  }

  lemma {:induction false} OutputsAtSound(data: seq<Byte>, o: nat, n: nat)
    requires OutputsAt(data, o, n).Some? && o <= |data|
    ensures var (outs, p) := OutputsAt(data, o, n).value;
      |outs| == n && o <= p <= |data| && AllValid(outs) && data[o..p] == Concat(outs)
    decreases n
  {
    hide OutputAt;
    if n == 0 {
    } else {
      var (r, q) := OutputAt(data, o).value;
      OutputAtSound(data, o);
      OutputsAtSound(data, q, n - 1);
      var (rest, p) := OutputsAt(data, q, n - 1).value;
      assert ([r] + rest)[1..] == rest;
      assert data[o..p] == data[o..q] + data[q..p];
    }
  }

  lemma {:induction false} OutputsAtComplete(data: seq<Byte>, o: nat, outs: seq<RawOutput>)
    requires AllValid(outs) && o + |Concat(outs)| <= |data|
    requires data[o..o + |Concat(outs)|] == Concat(outs)
    ensures OutputsAt(data, o, |outs|) == Some((outs, o + |Concat(outs)|))
    decreases |outs|
  {
    hide OutputAt;
    if outs == [] {
    } else {
      var b, c := outs[0].Bytes(), Concat(outs[1..]);
      var q := o + |b|;
      var all := Concat(outs);
      assert all == b + c;
      SliceOf(data, o, all, 0, |b|);
      SliceOf(data, o, all, |b|, |all|);
      assert all[0..|b|] == b && all[|b|..|all|] == c;
      OutputAtComplete(data, o, outs[0]);
      OutputsAtComplete(data, q, outs[1..]);
      assert outs == [outs[0]] + outs[1..];
    }
  }

  /** `Parse` finds a suffix exactly when the bytes from `o` spell one, and finds that one. */
  lemma ParseIsGrammar(data: seq<Byte>, o: nat, raw: RawSuffix)
    requires o <= |data|
    ensures Parse(data, o) == Some(raw) <==> raw.Valid() && data[o..] == raw.Bytes()
  {
    if Parse(data, o) == Some(raw) {
      ParseSound(data, o);
    }
    if raw.Valid() && data[o..] == raw.Bytes() {
      ParseComplete(data, o, raw);
    }
  }

  lemma ParseSound(data: seq<Byte>, o: nat)
    requires Parse(data, o).Some?
    ensures var raw := Parse(data, o).value; raw.Valid() && o <= |data| && data[o..] == raw.Bytes()
  {
    hide OutputsAt, VarintAt, Concat;
    VarintAtSound(data, o + 4);
    var (n, p) := VarintAt(data, o + 4).value;
    OutputsAtSound(data, p, n);
    var (outs, q) := OutputsAt(data, p, n).value;
    assert data[o..] == data[o..o + 4] + data[o + 4..p] + data[p..q] + data[q..];
  }

  lemma SuffixParts(raw: RawSuffix)
    requires raw.Valid()
    ensures var b, c, k := raw.Bytes(), Concat(raw.outputs), 4 + |raw.count|;
      |b| == k + |c| + 4 && b[0..4] == raw.sequence && b[4..k] == raw.count
      && b[k..k + |c|] == c && b[k + |c|..|b|] == raw.lockTime
  {
    hide Concat, IsVarint, AllValid;
  }

  lemma ParseComplete(data: seq<Byte>, o: nat, raw: RawSuffix)
    requires o <= |data| && raw.Valid() && data[o..] == raw.Bytes()
    ensures Parse(data, o) == Some(raw)
  {
    hide OutputsAt, VarintAt, Concat, IsVarint;
    var b, c := raw.Bytes(), Concat(raw.outputs);
    var p := o + 4 + |raw.count|;
    var q := p + |c|;
    var k := 4 + |raw.count|;
    assert |data| == o + |b| && data[o..o + |b|] == b;
    hide RawSuffix.Bytes;
    SliceOf(data, o, b, 0, 4);
    SliceOf(data, o, b, 4, k);
    SliceOf(data, o, b, k, k + |c|);
    SliceOf(data, o, b, k + |c|, |b|);
    SuffixParts(raw);
    VarintAtComplete(data, o + 4, raw.count, |raw.outputs|);
    OutputsAtComplete(data, p, raw.outputs);
  }

  // ---------------------------------------------------------------- coinbase_decode_varint

  /** The byte loops: `n` bytes from `o`, each shifted into its place. */
  method ReadLE(data: seq<Byte>, o: nat, n: nat) returns (value: nat)
    requires o + n <= |data|
    ensures value == LittleEndian(data[o..o + n])
  {
    value := 0;
    var i := 0;
    assert data[o..o] == [];
    while i < n
      invariant 0 <= i <= n && value == LittleEndian(data[o..o + i])
    {
      LittleEndianSnoc(data[o..o + i], data[o + i]);
      assert data[o..o + i + 1] == data[o..o + i] + [data[o + i]];
      value := value + data[o + i] * Pow(256, i);
      i := i + 1;
    }
  }

  /** A truncated varint reads as 0 and, once begun, moves the offset to the end. */
  method DecodeVarint(data: seq<Byte>, offset: nat) returns (value: nat, next: nat)
    ensures match VarintAt(data, offset)
      case Some((v, p)) => value == v && next == p
      case None => value == 0 && next == if offset < |data| then |data| else offset
  {
    hide LittleEndian;
    if offset >= |data| {
      return 0, offset;
    }
    var first := data[offset];
    next := offset + 1;
    if first < 0xFD {
      return first, next;
    } else if first == 0xFD {
      if next + 2 > |data| { return 0, |data|; }
      value := ReadLE(data, next, 2);
      next := next + 2;
    } else if first == 0xFE {
      if next + 4 > |data| { return 0, |data|; }
      value := ReadLE(data, next, 4);
      next := next + 4;
    } else {
      if next + 8 > |data| { return 0, |data|; }
      value := ReadLE(data, next, 8);
      next := next + 8;
    }
  }

  /** The suffix of a coinbase that pays 50 bitcoin to the script `OP_TRUE`. */
  lemma FiftyBitcoin()
    ensures var data: seq<Byte> := [0xFF, 0xFF, 0xFF, 0xFF, 1, 0x00, 0xF2, 0x05, 0x2A, 1, 0, 0, 0, 1, 0x51, 0, 0, 0, 0];
      Parse(data, 0).Some?
      && var outs := Parse(data, 0).value.outputs;
        |outs| == 1 && outs[0].Amount() == 5_000_000_000 && outs[0].script == [0x51]
  {
    hide Parse, RawSuffix.Valid, RawSuffix.Bytes, RawOutput.Amount;
    var o := RawOutput([0x00, 0xF2, 0x05, 0x2A, 1, 0, 0, 0], [1], [0x51]);
    var r := RawSuffix([0xFF, 0xFF, 0xFF, 0xFF], [1], [o], [0, 0, 0, 0]);
    FiftyBitcoinAmount(o);
    SingleOutput(o, r);
    var data: seq<Byte> := [0xFF, 0xFF, 0xFF, 0xFF, 1, 0x00, 0xF2, 0x05, 0x2A, 1, 0, 0, 0, 1, 0x51, 0, 0, 0, 0];
    assert data[0..] == r.Bytes();
    ParseIsGrammar(data, 0, r);
  }

  /** A suffix with one output, the length of its script in one byte. */
  lemma SingleOutput(o: RawOutput, r: RawSuffix)
    requires |o.value| == 8 && |o.length| == 1 && o.length[0] < 0xFD && |o.script| == o.length[0]
    requires |r.sequence| == 4 && r.count == [1] && r.outputs == [o] && |r.lockTime| == 4
    ensures r.Valid() && r.Bytes() == r.sequence + [1] + (o.value + o.length + o.script) + r.lockTime
  {
    hide LittleEndian;
    assert [o][1..] == [];
    assert Concat([o]) == o.Bytes() + Concat([]) == o.Bytes();
    assert o.Valid();
  }

  lemma AmountFrom(s: seq<Byte>, i: nat)
    requires i < |s|
    ensures LittleEndian(s[i..]) == s[i] + 256 * LittleEndian(s[i + 1..])
  {
    assert s[i..][1..] == s[i + 1..];
  }

  lemma LastAmount(s: seq<Byte>)
    requires s == [1, 0, 0, 0]
    ensures LittleEndian(s) == 1
  {
    hide LittleEndian;
    AmountFrom(s, 3);
    AmountFrom(s, 2);
    AmountFrom(s, 1);
    AmountFrom(s, 0);
    NoAmount();
    assert s[0..] == s;
    assert s[4..] == [];
  }

  lemma NoAmount()
    ensures LittleEndian([]) == 0
  {
  }

  lemma FiftyBitcoinAmount(o: RawOutput)
    requires o.value == [0x00, 0xF2, 0x05, 0x2A, 1, 0, 0, 0]
    ensures o.Amount() == 5_000_000_000
  {
    hide LittleEndian;
    var v := o.value;
    LastAmount(v[4..]);
    AmountFrom(v, 3);
    AmountFrom(v, 2);
    AmountFrom(v, 1);
    AmountFrom(v, 0);
    assert v[0..] == v;
  }
}
