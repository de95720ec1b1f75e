/** Bech32 and Bech32m strings: `bech32_encode` and `bech32_decode`. A string is the
    characters before its terminator. */
module Bech32 {
  import opened Wrappers
  import opened Bits
  import opened Numerals
  import opened Polymod

  const CHARSET: string := "qpzry9x8" + "gf2tvdw0" + "s3jn54kh" + "ce6mua7l"

  const DIGIT_ROW: seq<int> := [15, -1, 10, 17, 21, 20, 26, 30] + [7, 5, -1, -1, -1, -1, -1, -1]
  const AO_ROW: seq<int> := [-1, 29, -1, 24, 13, 25, 9, 8] + [23, -1, 18, 22, 31, 27, 19, -1]
  const PZ_ROW: seq<int> := [1, 0, 3, 16, 11, 28, 12, 14] + [6, 4, 2, -1, -1, -1, -1, -1]

  function CharOf(v: nat): (c: char)
    requires v < 32
  {
    CHARSET[v]
  }

  /** The value of a data character in either case, or -1: the reverse table. */
  function SymbolOf(c: char): int {
    var k := c as int;
    if k < 48 then -1
    else if k < 64 then DIGIT_ROW[k - 48]
    else if k < 80 then AO_ROW[k - 64]
    else if k < 96 then PZ_ROW[k - 80]
    else if k < 112 then AO_ROW[k - 96]
    else if k < 128 then PZ_ROW[k - 112]
    else -1
  }

  predicate IsUpper(c: char) { 'A' <= c <= 'Z' }

  predicate IsLower(c: char) { 'a' <= c <= 'z' }

  function LowerOf(c: char): char {
    if IsUpper(c) then (c as int + 32) as char else c
  }

  ghost predicate RoundTrips(v: nat)
    requires v < 32
  {
    SymbolOf(CharOf(v)) == v && CharOf(v) != '1' && !IsUpper(CharOf(v))
  }

  lemma LowSymbols(v: nat)
    requires v < 16
    ensures RoundTrips(v)
  {
  }

  lemma HighSymbols(v: nat)
    requires 16 <= v < 32
    ensures RoundTrips(v)
  {
  }

  lemma SymbolOfCharOf(v: nat)
    requires v < 32
    ensures SymbolOf(CharOf(v)) == v && CharOf(v) != '1' && !IsUpper(CharOf(v))
  {
    hide SymbolOf, CharOf;
    if v < 16 {
      LowSymbols(v);
    } else {
      HighSymbols(v);
    }
  }

  /** Entry `v` of the reverse table stands for the character `c`. */
  ghost predicate Stands(v: int, c: int) {
    -1 <= v < 32 && (v >= 0 ==> CHARSET[v] as int == c)
  }

  lemma DigitEntry(i: nat)
    requires i < 16
    ensures Stands(DIGIT_ROW[i], 48 + i)
  {
  }

  lemma AoEntry(i: nat)
    requires i < 16
    ensures Stands(AO_ROW[i], 96 + i)
  {
  }

  lemma PzEntry(i: nat)
    requires i < 16
    ensures Stands(PZ_ROW[i], 112 + i) && (PZ_ROW[i] >= 0 ==> i <= 10)
  {
  }

  lemma AoFirst()
    ensures AO_ROW[0] == -1
  {
  }

  lemma CharOfSymbolOf(c: char)
    ensures -1 <= SymbolOf(c) < 32
    ensures SymbolOf(c) >= 0 ==> CharOf(SymbolOf(c)) == LowerOf(c)
  {
    hide CharOf, LowerOf;
    if c as int < 64 {
      DigitSymbol(c);
    } else if c as int < 96 {
      UpperSymbol(c);
    } else {
      LowerSymbol(c);
    }
  }

  lemma DigitSymbol(c: char)
    requires c as int < 64
    ensures -1 <= SymbolOf(c) < 32
    ensures SymbolOf(c) >= 0 ==> CharOf(SymbolOf(c)) == LowerOf(c)
  {
    if c as int >= 48 {
      DigitEntry(c as int - 48);
    }
  }

  lemma UpperSymbol(c: char)
    requires 64 <= c as int < 96
    ensures -1 <= SymbolOf(c) < 32
    ensures SymbolOf(c) >= 0 ==> CharOf(SymbolOf(c)) == LowerOf(c)
  {
    AoFirst();
    if c as int < 80 {
      AoEntry(c as int - 64);
    } else {
      PzEntry(c as int - 80);
    }
  }

  lemma LowerSymbol(c: char)
    requires 96 <= c as int
    ensures -1 <= SymbolOf(c) < 32
    ensures SymbolOf(c) >= 0 ==> CharOf(SymbolOf(c)) == LowerOf(c)
  {
    if c as int < 112 {
      AoEntry(c as int - 96);
    } else if c as int < 128 {
      PzEntry(c as int - 112);
    }
  }

  // ---------------------------------------------------------------- reference definitions

  function HighBits(hrp: string): (s: seq<nat>)
    ensures |s| == |hrp|
  {
    seq(|hrp|, i requires 0 <= i < |hrp| => hrp[i] as int / 32)
  }

  function LowBits(hrp: string): (s: seq<nat>)
    ensures |s| == |hrp|
  {
    seq(|hrp|, i requires 0 <= i < |hrp| => hrp[i] as int % 32)
  }

  /** The symbols the checksum absorbs before the data. */
  function HrpExpand(hrp: string): seq<nat> {
    HighBits(hrp) + [0] + LowBits(hrp)
  }

  function Chars(vs: seq<nat>): (t: string)
    requires Symbols(vs)
    ensures |t| == |vs| && forall i :: 0 <= i < |t| ==> t[i] == CharOf(vs[i])
  {
    seq(|vs|, i requires 0 <= i < |vs| => CharOf(vs[i]))
  }

  function Lower(t: string): (u: string)
    ensures |u| == |t| && forall i :: 0 <= i < |t| ==> u[i] == LowerOf(t[i])
  {
    seq(|t|, i requires 0 <= i < |t| => LowerOf(t[i]))
  }

  predicate Printable(c: char) { 33 <= c as int <= 126 }

  ghost predicate PrintableHrp(hrp: string) {
    forall i :: 0 <= i < |hrp| ==> Printable(hrp[i])
  }

  ghost predicate NoUpper(t: string) {
    forall i :: 0 <= i < |t| ==> !IsUpper(t[i])
  }

  ghost predicate NoLower(t: string) {
    forall i :: 0 <= i < |t| ==> !IsLower(t[i])
  }

  ghost predicate IsData(t: string) {
    forall i :: 0 <= i < |t| ==> SymbolOf(t[i]) >= 0
  }

  function Values(t: string): (vs: seq<nat>)
    requires IsData(t)
    ensures |vs| == |t| && forall i :: 0 <= i < |vs| ==> vs[i] == SymbolOf(t[i])
  {
    seq(|t|, i requires 0 <= i < |t| => SymbolOf(t[i]))
  }

  function Register(hrp: string, data: seq<nat>): nat {
    Fold(1, HrpExpand(hrp) + data)
  }

  /** What `bech32_encode` accepts. It does not ask for a nonempty prefix. */
  ghost predicate Encodable(hrp: string, data: seq<nat>) {
    PrintableHrp(hrp) && NoUpper(hrp) && |hrp| + 7 + |data| <= 90 && Symbols(data)
  }

  function Text(hrp: string, data: seq<nat>, enc: Encoding): string
    requires Symbols(data)
  {
    hrp + "1" + Chars(data + Checksum(Register(hrp, data), enc))
  }

  /** The number of characters after the last '1', or all of them. */
  function TailLength(t: string): (n: nat)
    ensures n <= |t| && (n < |t| ==> t[|t| - 1 - n] == '1')
    ensures forall i :: |t| - n <= i < |t| ==> t[i] != '1'
  {
    if t == "" || t[|t| - 1] == '1' then 0 else 1 + TailLength(t[..|t| - 1])
  }

  datatype Decoded = Decoded(enc: Encoding, hrp: string, data: seq<nat>)

  /** The syntax `bech32_decode` checks before looking at the checksum. */
  ghost predicate WellFormed(t: string) {
    var n := TailLength(t);
    8 <= |t| <= 90 && 6 <= n && n + 1 < |t|
    && PrintableHrp(t[..|t| - 1 - n]) && IsData(t[|t| - n..])
    && (NoUpper(t) || NoLower(t))
  }

  ghost function HrpOf(t: string): string
    requires WellFormed(t)
  {
    Lower(t[..|t| - 1 - TailLength(t)])
  }

  ghost function TailOf(t: string): (vs: seq<nat>)
    requires WellFormed(t)
    ensures |vs| == TailLength(t)
  {
    Values(t[|t| - TailLength(t)..])
  }

  ghost function Decode(t: string): Option<Decoded> {
    if !WellFormed(t) then None
    else
      var hrp, vs := HrpOf(t), TailOf(t);
      var chk := Register(hrp, vs);
      if chk == FinalConstant(Plain) then Some(Decoded(Plain, hrp, vs[..|vs| - 6]))
      else if chk == FinalConstant(M) then Some(Decoded(M, hrp, vs[..|vs| - 6]))
      else None
  }

  // ---------------------------------------------------------------- facts about them

  lemma TailLengthIs(t: string, n: nat)
    requires n < |t| && t[|t| - 1 - n] == '1' && forall i :: |t| - n <= i < |t| ==> t[i] != '1'
    ensures TailLength(t) == n
  {
    if n > 0 {
      assert t[|t| - 1] != '1';
      TailLengthIs(t[..|t| - 1], n - 1);
    }
  }

  lemma HrpSymbols(hrp: string)
    requires PrintableHrp(hrp)
    ensures Symbols(HrpExpand(hrp))
  {
  }

  lemma ValuesAreSymbols(t: string)
    requires IsData(t)
    ensures Symbols(Values(t)) && Chars(Values(t)) == Lower(t)
  {
    hide SymbolOf, CharOf, LowerOf;
    forall i | 0 <= i < |t|
      ensures Values(t)[i] < 32 && CharOf(Values(t)[i]) == LowerOf(t[i])
    {
      CharOfSymbolOf(t[i]);
    }
  }

  lemma CharsAreData(vs: seq<nat>)
    requires Symbols(vs)
    ensures IsData(Chars(vs)) && Values(Chars(vs)) == vs && NoUpper(Chars(vs))
    ensures forall i :: 0 <= i < |vs| ==> Chars(vs)[i] != '1'
  {
    hide SymbolOf, CharOf;
    forall i | 0 <= i < |vs|
      ensures SymbolOf(Chars(vs)[i]) == vs[i] && Chars(vs)[i] != '1' && !IsUpper(Chars(vs)[i])
    {
      SymbolOfCharOf(vs[i]);
    }
  }

  lemma RegisterRange(hrp: string, data: seq<nat>)
    requires PrintableHrp(hrp) && Symbols(data)
    ensures Register(hrp, data) < REGISTER
  {
    hide Fold;
    HrpSymbols(hrp);
    FoldRange(1, HrpExpand(hrp) + data);
  }

  lemma RegisterConcat(hrp: string, data: seq<nat>, more: seq<nat>)
    ensures Register(hrp, data + more) == Fold(Register(hrp, data), more)
  {
    hide Fold;
    assert HrpExpand(hrp) + (data + more) == HrpExpand(hrp) + data + more;
    FoldConcat(1, HrpExpand(hrp) + data, more);
  }

  /** The symbols of `t`, split behind its first `n + 1` characters, in the order BIP-173 checks them: the high bits
      of the prefix, a zero, the low bits of the prefix, and what the characters behind the separator stand for. */
  ghost predicate Expands(e: seq<nat>, t: string, n: nat)
    requires n < |t|
  {
    |e| == n + |t| && e[n] == 0
    && (forall i :: 0 <= i < n ==> e[i] == t[i] as int / 32 && e[n + 1 + i] == t[i] as int % 32)
    && (forall i :: n < i < |t| ==> e[n + i] == SymbolOf(t[i]))
  }

  lemma ExpandsIs(e: seq<nat>, t: string, n: nat)
    requires n < |t| && Expands(e, t, n) && IsData(t[n + 1..])
    ensures e == HrpExpand(t[..n]) + Values(t[n + 1..])
  {
    hide SymbolOf, Expands;
    ExpandsPrefix(e, t, n);
    ExpandsTail(e, t, n);
    assert e == e[..n] + [e[n]] + e[n + 1..2 * n + 1] + e[2 * n + 1..];
  }

  lemma ExpandsPrefix(e: seq<nat>, t: string, n: nat)
    requires n < |t| && Expands(e, t, n)
    ensures 2 * n < |e| && e[n] == 0 && e[..n] == HighBits(t[..n]) && e[n + 1..2 * n + 1] == LowBits(t[..n])
  {
    forall i | 0 <= i < n
      ensures e[n + 1..2 * n + 1][i] == LowBits(t[..n])[i]
    {
      assert e[n + 1 + i] == t[i] as int % 32;
    }
  }

  lemma ExpandsTail(e: seq<nat>, t: string, n: nat)
    requires n < |t| && Expands(e, t, n) && IsData(t[n + 1..])
    ensures 2 * n < |e| && e[2 * n + 1..] == Values(t[n + 1..])
  {
    hide SymbolOf;
    var tail := t[n + 1..];
    forall i | 0 <= i < |tail|
      ensures e[2 * n + 1..][i] == SymbolOf(tail[i])
    {
      assert e[n + (n + 1 + i)] == SymbolOf(t[n + 1 + i]);
    }
  }

  /** Where an encoded string keeps what, and the checksum of BIP-173 stated on its characters. */
  lemma TextLayout(hrp: string, data: seq<nat>, enc: Encoding, e: seq<nat>)
    requires Encodable(hrp, data)
    ensures var t, n := Text(hrp, data, enc), |hrp|;
      |t| == n + 7 + |data| && t[..n] == hrp && t[n] == '1'
      && IsData(t[n + 1..]) && Values(t[n + 1..])[..|data|] == data
      && (Expands(e, t, n) ==> Fold(1, e) == FinalConstant(enc))
  {
    hide Fold, SymbolOf, CharOf, Checksum, FinalConstant, Expands, HrpExpand, Values, Chars, IsData;
    var t, n := Text(hrp, data, enc), |hrp|;
    RegisterRange(hrp, data);
    var c := Checksum(Register(hrp, data), enc);
    CharsAreData(data + c);
    assert t[n + 1..] == Chars(data + c) && t[..n] == hrp;
    assert (data + c)[..|data|] == data;
    if Expands(e, t, n) {
      ExpandsIs(e, t, n);
      RegisterVerifies(hrp, data, c, enc);
    }
  }

  /** The 32 data characters in the order of BIP-173. */
  lemma DataCharacters(vs: seq<nat>)
    requires Symbols(vs) && |vs| == 32 && forall i :: 0 <= i < 32 ==> vs[i] == i
    ensures Chars(vs) == "qpzry9x8gf2tvdw0s3jn54khce6mua7l"
  {
    assert CHARSET == "qpzry9x8gf2tvdw0s3jn54khce6mua7l";
  }

  /** The register over data and six symbols ends in `enc`'s constant exactly for its checksum. */
  lemma RegisterVerifies(hrp: string, data: seq<nat>, t: seq<nat>, enc: Encoding)
    requires PrintableHrp(hrp) && Symbols(data) && |t| == 6 && Symbols(t)
    ensures Register(hrp, data + t) == FinalConstant(enc) <==> t == Checksum(Register(hrp, data), enc)
  {
    hide Fold, Checksum, Register;
    RegisterRange(hrp, data);
    RegisterConcat(hrp, data, t);
    ChecksumUnique(Register(hrp, data), t, enc);
  }

  lemma LowerId(t: string)
    requires NoUpper(t)
    ensures Lower(t) == t
  {
  }

  lemma TextShape(hrp: string, data: seq<nat>, enc: Encoding)
    requires Encodable(hrp, data)
    ensures var t := Text(hrp, data, enc);
      TailLength(t) == |data| + 6 && NoUpper(t) && t[..|t| - 1 - TailLength(t)] == hrp
      && t[|t| - TailLength(t)..] == Chars(data + Checksum(Register(hrp, data), enc))
  {
    hide CharOf, SymbolOf, Checksum, Register, TailLength, Printable;
    var vs := data + Checksum(Register(hrp, data), enc);
    var t := Text(hrp, data, enc);
    CharsAreData(vs);
    assert t[|hrp|] == '1';
    TailLengthIs(t, |vs|);
    assert t[|t| - |vs|..] == Chars(vs);
  }

  /** Every text `bech32_encode` produces decodes to what was encoded, except that the decoder
      refuses the empty prefix the encoder lets through. */
  lemma EncodeDecode(hrp: string, data: seq<nat>, enc: Encoding)
    requires Encodable(hrp, data)
    ensures Decode(Text(hrp, data, enc)) == if hrp == "" then None else Some(Decoded(enc, hrp, data))
  {
    hide CharOf, SymbolOf, Checksum, Register, TailLength, IsUpper, IsLower, Printable;
    var c := Checksum(Register(hrp, data), enc);
    var t := Text(hrp, data, enc);
    TextShape(hrp, data, enc);
    if hrp != "" {
      CharsAreData(data + c);
      assert WellFormed(t);
      LowerId(hrp);
      RegisterVerifies(hrp, data, c, enc);
      assert (data + c)[..|data + c| - 6] == data;
    }
  }

  /** The encoder writes a text for the empty prefix, and the decoder refuses it. */
  lemma EmptyPrefixRefused(enc: Encoding)
    ensures Encodable("", []) && Decode(Text("", [], enc)) == None
  {
    EncodeDecode("", [], enc);
  }

  /** What a decoded text consists of. */
  lemma DecodedParts(t: string)
    requires Decode(t).Some?
    ensures WellFormed(t)
    ensures var d, vs := Decode(t).value, TailOf(t);
      d.hrp == HrpOf(t) && |vs| >= 6 && d.data == vs[..|vs| - 6] && Register(d.hrp, vs) == FinalConstant(d.enc)
  {
    hide PrintableHrp, IsData, NoUpper, NoLower, HrpOf, TailOf, Register, FinalConstant, TailLength;
  }

  /** What a well-formed text consists of. */
  lemma WellFormedParts(t: string)
    requires WellFormed(t)
    ensures var hrp, vs := HrpOf(t), TailOf(t);
      hrp != "" && PrintableHrp(hrp) && NoUpper(hrp) && |hrp| + 1 + |vs| <= 90
      && Symbols(vs) && Lower(t) == hrp + "1" + Chars(vs)
  {
    hide SymbolOf, TailLength, Symbols, PrintableHrp, NoUpper, IsData, Chars;
    var n := TailLength(t);
    ValuesAreSymbols(t[|t| - n..]);
    LowerPrintable(t[..|t| - 1 - n]);
    LowerSplit(t, n);
  }

  /** Data and a block that passes verification are what the encoder writes for the data. */
  lemma Rebuilt(hrp: string, data: seq<nat>, c: seq<nat>, enc: Encoding)
    requires PrintableHrp(hrp) && Symbols(data) && Symbols(c) && |c| == 6
    requires Symbols(data + c) && Register(hrp, data + c) == FinalConstant(enc)
    ensures Text(hrp, data, enc) == hrp + "1" + Chars(data + c)
  {
    hide Register, Checksum, PrintableHrp, FinalConstant, Symbols, Chars;
    RegisterVerifies(hrp, data, c, enc);
  }

  lemma SymbolsCut(vs: seq<nat>, k: nat)
    requires Symbols(vs) && k <= |vs|
    ensures vs == vs[..k] + vs[k..] && Symbols(vs[..k]) && Symbols(vs[k..])
  {
  }

  /** Every text that decodes is, up to case, the encoding of its result. */
  lemma DecodeEncode(t: string)
    requires Decode(t).Some?
    ensures var d := Decode(t).value;
      Encodable(d.hrp, d.data) && d.hrp != "" && Text(d.hrp, d.data, d.enc) == Lower(t)
  {
    hide Decode, HrpOf, TailOf, WellFormed, Register, FinalConstant, Text, Chars, Lower;
    hide Symbols, PrintableHrp, NoUpper;
    DecodedParts(t);
    WellFormedParts(t);
    var d, vs := Decode(t).value, TailOf(t);
    SymbolsCut(vs, |vs| - 6);
    Rebuilt(d.hrp, d.data, vs[|vs| - 6..], d.enc);
  }

  lemma SymbolOfLower(c: char)
    ensures SymbolOf(LowerOf(c)) == SymbolOf(c) && Printable(LowerOf(c)) == Printable(c)
    ensures (LowerOf(c) == '1' <==> c == '1') && !IsUpper(LowerOf(c))
  {
  }

  lemma LowerChars(t: string)
    ensures var u := Lower(t);
      NoUpper(u) && forall i :: 0 <= i < |t| ==>
        SymbolOf(u[i]) == SymbolOf(t[i]) && Printable(u[i]) == Printable(t[i]) && (u[i] == '1' <==> t[i] == '1')
  {
    hide SymbolOf, LowerOf, Printable;
    forall i | 0 <= i < |t|
      ensures var u := Lower(t)[i];
        SymbolOf(u) == SymbolOf(t[i]) && Printable(u) == Printable(t[i]) && (u == '1' <==> t[i] == '1') && !IsUpper(u)
    {
      SymbolOfLower(t[i]);
    }
  }

  lemma LowerSlices(t: string, n: nat)
    requires n < |t|
    ensures var u, k := Lower(t), |t| - n;
      PrintableHrp(u[..k - 1]) == PrintableHrp(t[..k - 1]) && IsData(u[k..]) == IsData(t[k..])
  {
    hide SymbolOf, LowerOf, Printable, Lower, IsData, PrintableHrp;
    LowerChars(t);
    var u, k := Lower(t), |t| - n;
    SamePrintable(u[..k - 1], t[..k - 1]);
    SameData(u[k..], t[k..]);
  }

  /** A text and the same in lower case have the same syntax, as long as the text does not mix cases. */
  lemma LowerWellFormed(t: string)
    requires NoUpper(t) || NoLower(t)
    ensures TailLength(Lower(t)) == TailLength(t) && WellFormed(Lower(t)) == WellFormed(t)
  {
    hide SymbolOf, LowerOf, Printable, NoUpper, NoLower, PrintableHrp, IsData, TailLength;
    LowerChars(t);
    LowerTail(t, Lower(t));
    if TailLength(t) < |t| {
      LowerSlices(t, TailLength(t));
    }
  }

  lemma SamePrintable(a: string, b: string)
    requires |a| == |b| && forall i :: 0 <= i < |a| ==> Printable(a[i]) == Printable(b[i])
    ensures PrintableHrp(a) == PrintableHrp(b)
  {
    hide Printable;
  }

  lemma SameData(a: string, b: string)
    requires |a| == |b| && forall i :: 0 <= i < |a| ==> SymbolOf(a[i]) == SymbolOf(b[i])
    ensures IsData(a) == IsData(b) && (IsData(a) ==> Values(a) == Values(b))
  {
    hide SymbolOf;
  }

  lemma {:induction false} LowerTail(t: string, u: string)
    requires |t| == |u| && forall i :: 0 <= i < |t| ==> (u[i] == '1' <==> t[i] == '1')
    ensures TailLength(u) == TailLength(t)
  {
    if t != "" && t[|t| - 1] != '1' {
      LowerTail(t[..|t| - 1], u[..|t| - 1]);
    }
  }

  /** The decoder does not care which of the two cases a text is in. */
  lemma CaseIgnored(t: string)
    requires NoUpper(t) || NoLower(t)
    ensures Decode(Lower(t)) == Decode(t)
  {
    hide SymbolOf, LowerOf, Register, FinalConstant, TailLength, WellFormed;
    LowerWellFormed(t);
    if WellFormed(t) {
      var u := Lower(t);
      WellFormedTail(t);
      WellFormedTail(u);
      LowerParts(t, TailLength(t));
      assert HrpOf(u) == HrpOf(t) && TailOf(u) == TailOf(t);
    }
  }

  lemma WellFormedTail(t: string)
    requires WellFormed(t)
    ensures TailLength(t) + 1 < |t| && IsData(t[|t| - TailLength(t)..])
  {
    hide SymbolOf, TailLength, PrintableHrp, NoUpper, NoLower;
  }

  lemma LowerParts(t: string, n: nat)
    requires n + 1 < |t| && IsData(t[|t| - n..])
    ensures var u := Lower(t);
      Lower(u[..|t| - 1 - n]) == Lower(t[..|t| - 1 - n])
      && IsData(u[|t| - n..]) && Values(u[|t| - n..]) == Values(t[|t| - n..])
  {
    hide SymbolOf, LowerOf;
    var u := Lower(t);
    forall i | 0 <= i < |t|
      ensures LowerOf(u[i]) == u[i] == LowerOf(t[i]) && SymbolOf(u[i]) == SymbolOf(t[i])
    {
      SymbolOfLower(t[i]);
      LowerTwice(t[i]);
    }
    assert Lower(u[..|t| - 1 - n]) == Lower(t[..|t| - 1 - n]);
    SameData(u[|t| - n..], t[|t| - n..]);
  }

  lemma LowerTwice(c: char)
    ensures LowerOf(LowerOf(c)) == LowerOf(c)
  {
  }

  /** Exactly what the decoder accepts: in either case, but not in both at once, the texts the encoder writes for
      a prefix that is not empty. */
  lemma DecodeAccepts(t: string, enc: Encoding, hrp: string, data: seq<nat>)
    ensures Decode(t) == Some(Decoded(enc, hrp, data))
       <==> (NoUpper(t) || NoLower(t)) && hrp != "" && Encodable(hrp, data) && Text(hrp, data, enc) == Lower(t)
  {
    hide Decode, Text, Lower, NoUpper, NoLower, PrintableHrp;
    if Decode(t) == Some(Decoded(enc, hrp, data)) {
      DecodeEncode(t);
      DecodedCase(t);
    }
    if (NoUpper(t) || NoLower(t)) && hrp != "" && Encodable(hrp, data) && Text(hrp, data, enc) == Lower(t) {
      EncodeDecode(hrp, data, enc);
      CaseIgnored(t);
    }
  }

  lemma DecodedCase(t: string)
    requires Decode(t).Some?
    ensures NoUpper(t) || NoLower(t)
  {
    hide NoUpper, NoLower, PrintableHrp, IsData, TailLength, Register, FinalConstant;
  }

  lemma LowerSplit(t: string, n: nat)
    requires n < |t| && t[|t| - 1 - n] == '1'
    ensures Lower(t) == Lower(t[..|t| - 1 - n]) + "1" + Lower(t[|t| - n..])
  {
    assert LowerOf('1') == '1';
    hide LowerOf;
  }

  lemma LowerPrintable(hrp: string)
    requires PrintableHrp(hrp)
    ensures PrintableHrp(Lower(hrp)) && NoUpper(Lower(hrp))
  {
  }

  /** Two texts of one length, prefix and encoding whose characters differ only within six
      consecutive places cannot both decode, unless they differ in case alone. */
  lemma BurstRefused(a: string, b: string, k: nat)
    requires |a| == |b| && forall i :: 0 <= i < |a| && !(k <= i < k + 6) ==> a[i] == b[i]
    requires Decode(a).Some? && Decode(b).Some?
    requires Decode(a).value.hrp == Decode(b).value.hrp && Decode(a).value.enc == Decode(b).value.enc
    ensures Lower(a) == Lower(b)
  {
    hide CharOf, SymbolOf, TailLength, LowerOf, Printable, IsUpper, IsLower, FinalConstant, Fold, HrpExpand;
    var n, u, w := TailLength(a), TailOf(a), TailOf(b);
    var hrp := HrpOf(a);
    assert |w| == n;
    ValuesAreSymbols(a[|a| - n..]);
    ValuesAreSymbols(b[|b| - n..]);
    // the window, cut to the data part
    var from: nat := if k < |a| - n then 0 else if k > |a| then n else k - (|a| - n);
    var upto: nat := if k + 6 < |a| - n then from else if k + 6 > |a| then n else k + 6 - (|a| - n);
    if upto <= from {
      upto := from;
    }
    forall i | 0 <= i < n && !(from <= i < upto)
      ensures u[i] == w[i]
    {
      assert a[|a| - n..][i] == a[|a| - n + i] == b[|b| - n..][i];
    }
    WindowEqual(Fold(1, HrpExpand(hrp)), u, w, from, upto) by {
      FoldConcat(1, HrpExpand(hrp), u);
      FoldConcat(1, HrpExpand(hrp), w);
    }
    LowerSplit(a, n);
    LowerSplit(b, n);
  }

  lemma WindowEqual(chk: nat, u: seq<nat>, w: seq<nat>, from: nat, upto: nat)
    requires |u| == |w| && from <= upto <= |u| && upto - from <= 6
    requires Symbols(u) && Symbols(w)
    requires forall i :: 0 <= i < |u| && !(from <= i < upto) ==> u[i] == w[i]
    requires Fold(chk, u) == Fold(chk, w)
    ensures u == w
  {
    hide Fold;
    assert u[..from] == w[..from] && u[upto..] == w[upto..];
    assert u == u[..from] + u[from..upto] + u[upto..];
    assert w == u[..from] + w[from..upto] + u[upto..];
    BurstSeen(chk, u[..from], u[from..upto], w[from..upto], u[upto..]);
  }

  // ---------------------------------------------------------------- bech32_encode

  lemma FoldNext(chk: nat, vs: seq<nat>, i: nat)
    requires i < |vs|
    ensures Fold(chk, vs[..i + 1]) == Bits.Xor(PolymodStep(Fold(chk, vs[..i])), vs[i])
  {
    hide PolymodStep;
    assert vs[..i + 1][..i] == vs[..i];
  }

  /** Absorbing a zero symbol is a bare step. */
  lemma FoldZero(chk: nat, vs: seq<nat>, i: nat)
    requires i < |vs| && vs[i] == 0
    ensures Fold(chk, vs[..i + 1]) == PolymodStep(Fold(chk, vs[..i]))
  {
    hide PolymodStep, Fold, Bits.Xor;
    FoldNext(chk, vs, i);
    Bits.XorZero(PolymodStep(Fold(chk, vs[..i])));
  }

  lemma FoldEmpty(chk: nat, vs: seq<nat>)
    ensures Fold(chk, vs[..0]) == chk
  {
  }

  /** The first pass over the prefix. */
  method AbsorbHigh(hrp: string) returns (ok: bool, chk: nat)
    ensures ok <==> PrintableHrp(hrp) && NoUpper(hrp)
    ensures ok ==> chk == Fold(1, HighBits(hrp))
  {
    hide PolymodStep, Fold, Bits.Xor;
    chk := 1;
    ghost var vs := HighBits(hrp);
    FoldEmpty(1, vs);
    var i := 0;
    while i < |hrp|
      invariant i <= |hrp| && chk == Fold(1, vs[..i])
      invariant forall k :: 0 <= k < i ==> Printable(hrp[k]) && !IsUpper(hrp[k])
    {
      var ch := hrp[i];
      if ch as int < 33 || ch as int > 126 {
        return false, 0;
      }
      if 'A' <= ch <= 'Z' {
        return false, 0;
      }
      FoldNext(1, vs, i);
      chk := Bits.Xor(PolymodStep(chk), ch as int / 32);
      i := i + 1;
    }
    assert vs[..i] == vs;
    ok := true;
  }

  /** The register, pass by pass. */
  lemma RegisterPasses(hrp: string, data: seq<nat>)
    ensures var c := PolymodStep(Fold(1, HighBits(hrp)));
      Register(hrp, data) == Fold(Fold(c, LowBits(hrp)), data)
  {
    hide PolymodStep, Bits.Xor;
    var h, l := HighBits(hrp), LowBits(hrp);
    assert Fold(Fold(1, h), [0]) == PolymodStep(Fold(1, h)) by {
      assert [0][..0] == [];
      Bits.XorZero(PolymodStep(Fold(1, h)));
    }
    hide Fold;
    FoldConcat(1, h, [0]);
    FoldConcat(1, h + [0], l);
    FoldConcat(1, h + [0] + l, data);
  }

  /** The second pass over the prefix. */
  method AbsorbLow(chk0: nat, hrp: string) returns (chk: nat)
    ensures chk == Fold(chk0, LowBits(hrp))
  {
    hide PolymodStep, Fold, Bits.Xor;
    chk := chk0;
    ghost var vs := LowBits(hrp);
    FoldEmpty(chk0, vs);
    var i := 0;
    while i < |hrp|
      invariant i <= |hrp| && chk == Fold(chk0, vs[..i])
    {
      FoldNext(chk0, vs, i);
      chk := Bits.Xor(PolymodStep(chk), hrp[i] as int % 32);
      i := i + 1;
    }
    assert vs[..i] == vs;
  }

  /** The data pass of `bech32_encode`. */
  method AbsorbData(chk0: nat, data: seq<nat>) returns (ok: bool, chk: nat, text: string)
    ensures ok <==> Symbols(data)
    ensures ok ==> chk == Fold(chk0, data) && text == Chars(data)
  {
    hide PolymodStep, Fold, Bits.Xor, CharOf;
    chk, text := chk0, "";
    FoldEmpty(chk0, data);
    var i := 0;
    while i < |data|
      invariant i <= |data| && chk == Fold(chk0, data[..i])
      invariant forall k :: 0 <= k < i ==> data[k] < 32
      invariant |text| == i && forall k :: 0 <= k < i ==> text[k] == CharOf(data[k])
    {
      if data[i] / 32 != 0 {
        return false, 0, "";
      }
      FoldNext(chk0, data, i);
      chk := Bits.Xor(PolymodStep(chk), data[i]);
      text := text + [CharOf(data[i])];
      i := i + 1;
    }
    assert data[..i] == data;
    ok := true;
  }

  /** The last loop of `bech32_encode`: six zero steps, the final constant, six characters. */
  method AppendChecksum(chk0: nat, enc: Encoding, out: string) returns (output: string)
    ensures output == out + Chars(Checksum(chk0, enc))
  {
    hide PolymodStep, Fold, Bits.Xor, CharOf, FinalConstant, CheckDigits;
    var chk := chk0;
    var i := 0;
    FoldEmpty(chk0, Zeros(6));
    while i < 6
      invariant 0 <= i <= 6 && chk == Fold(chk0, Zeros(6)[..i])
    {
      FoldZero(chk0, Zeros(6), i);
      chk := PolymodStep(chk);
      i := i + 1;
    }
    assert Zeros(6)[..6] == Zeros(6);
    chk := Bits.Xor(chk, FinalConstant(enc));
    ghost var c := Checksum(chk0, enc);
    output := out;
    i := 0;
    while i < 6
      invariant 0 <= i <= 6 && output == out + Chars(c)[..i]
    {
      CheckDigitAt(chk, i);
      output := output + [CharOf(chk / Numerals.Pow(32, 5 - i) % 32)];
      i := i + 1;
    }
    assert Chars(c)[..6] == Chars(c);
  }

  lemma CheckDigitAt(p: nat, i: nat)
    requires i < 6
    ensures CheckDigits(p)[i] == p / Numerals.Pow(32, 5 - i) % 32
  {
    assert Numerals.Pow(32, 0) == 1 && Numerals.Pow(32, 1) == 32 && Numerals.Pow(32, 2) == 0x400;
    assert Numerals.Pow(32, 3) == 0x8000 && Numerals.Pow(32, 4) == 0x10_0000;
    PowFive();
  }

  /** `bech32_encode`. */
  method Bech32Encode(hrp: string, data: seq<nat>, enc: Encoding) returns (ok: bool, output: string)
    ensures ok <==> Encodable(hrp, data)
    ensures ok ==> output == Text(hrp, data, enc)
  {
    hide PolymodStep, Fold, Bits.Xor, CharOf, Checksum, Printable, IsUpper, HighBits, LowBits, Register;
    output := "";
    var chk;
    ok, chk := AbsorbHigh(hrp);
    if !ok {
      return;
    }
    if |hrp| + 7 + |data| > 90 {
      return false, "";
    }
    chk := PolymodStep(chk);
    chk := AbsorbLow(chk, hrp);
    output := hrp + "1";
    var chars;
    ok, chk, chars := AbsorbData(chk, data);
    if !ok {
      return false, "";
    }
    RegisterPasses(hrp, data);
    output := AppendChecksum(chk, enc, output + chars);
    assert Chars(data + Checksum(chk, enc)) == Chars(data) + Chars(Checksum(chk, enc));
  }

  // ---------------------------------------------------------------- bech32_decode

  /** The prefix pass: print range, case, and the high bits of the lower-case characters. */
  method ReadHrp(hrpIn: string) returns (ok: bool, hrp: string, chk: nat, haveLower: bool, haveUpper: bool)
    ensures ok <==> PrintableHrp(hrpIn)
    ensures ok ==> hrp == Lower(hrpIn) && chk == Fold(1, HighBits(hrp))
    ensures ok ==> (haveLower <==> !NoLower(hrpIn)) && (haveUpper <==> !NoUpper(hrpIn))
  {
    hide PolymodStep, Fold, Bits.Xor;
    ghost var vs := HighBits(Lower(hrpIn));
    FoldEmpty(1, vs);
    chk, hrp, haveLower, haveUpper := 1, "", false, false;
    var i := 0;
    while i < |hrpIn|
      invariant i <= |hrpIn| && chk == Fold(1, vs[..i]) && hrp == Lower(hrpIn)[..i]
      invariant forall k :: 0 <= k < i ==> Printable(hrpIn[k])
      invariant haveLower <==> exists k :: 0 <= k < i && IsLower(hrpIn[k])
      invariant haveUpper <==> exists k :: 0 <= k < i && IsUpper(hrpIn[k])
    {
      var ch := hrpIn[i];
      if ch as int < 33 || ch as int > 126 {
        return false, "", 0, false, false;
      }
      if 'a' <= ch <= 'z' {
        haveLower := true;
      } else if 'A' <= ch <= 'Z' {
        haveUpper := true;
        ch := (ch as int - 'A' as int + 'a' as int) as char;
      }
      hrp := hrp + [ch];
      FoldNext(1, vs, i);
      chk := Bits.Xor(PolymodStep(chk), ch as int / 32);
      i := i + 1;
    }
    assert vs[..i] == vs;
    ok := true;
  }

  /** The data pass: every character must be in the character set. */
  method ReadData(chk0: nat, tail: string) returns (ok: bool, vs: seq<nat>, chk: nat, haveLower: bool, haveUpper: bool)
    ensures ok <==> IsData(tail)
    ensures ok ==> vs == Values(tail) && chk == Fold(chk0, vs)
    ensures ok ==> (haveLower <==> !NoLower(tail)) && (haveUpper <==> !NoUpper(tail))
  {
    hide PolymodStep, Fold, Bits.Xor, SymbolOf;
    vs, chk, haveLower, haveUpper := [], chk0, false, false;
    FoldEmpty(chk0, vs);
    var i := 0;
    while i < |tail|
      invariant i <= |tail| == i + (|tail| - |vs|) && chk == Fold(chk0, vs)
      invariant forall k :: 0 <= k < i ==> SymbolOf(tail[k]) >= 0 && vs[k] == SymbolOf(tail[k])
      invariant haveLower <==> exists k :: 0 <= k < i && IsLower(tail[k])
      invariant haveUpper <==> exists k :: 0 <= k < i && IsUpper(tail[k])
    {
      var c := tail[i];
      var v := SymbolOf(c);
      CharOfSymbolOf(c);
      if 'a' <= c <= 'z' { haveLower := true; }
      if 'A' <= c <= 'Z' { haveUpper := true; }
      if v == -1 {
        return false, [], 0, false, false;
      }
      assert (vs + [v])[..i] == vs;
      FoldNext(chk0, vs + [v], i);
      assert (vs + [v])[..i + 1] == vs + [v];
      chk := Bits.Xor(PolymodStep(chk), v);
      vs := vs + [v];
      i := i + 1;
    }
    ok := true;
  }

  /** The case flags of a text are those of its prefix and its data. */
  lemma CaseOfParts(t: string, n: nat)
    requires n < |t| && t[|t| - 1 - n] == '1'
    ensures NoUpper(t) <==> NoUpper(t[..|t| - 1 - n]) && NoUpper(t[|t| - n..])
    ensures NoLower(t) <==> NoLower(t[..|t| - 1 - n]) && NoLower(t[|t| - n..])
  {
    var p, q := t[..|t| - 1 - n], t[|t| - n..];
    forall i | 0 <= i < |t| && i != |p|
      ensures t[i] == if i < |p| then p[i] else q[i - |p| - 1]
    {
    }
  }

  /** The second prefix pass reads the text as it stands: case does not reach the low five bits. */
  lemma LowBitsOfLower(hrp: string)
    ensures LowBits(Lower(hrp)) == LowBits(hrp)
  {
  }

  /** `bech32_decode`. */
  method Bech32Decode(input: string) returns (r: Option<Decoded>)
    ensures r == Decode(input)
  {
    hide PolymodStep, Fold, Bits.Xor, SymbolOf, Printable, IsUpper, IsLower, HighBits, LowBits, Register, TailLength;
    if |input| < 8 || |input| > 90 {
      return None;
    }
    var n: nat := 0;
    while n < |input| && input[(|input| - 1) - n] != '1'
      invariant n <= |input| && forall i :: |input| - n <= i < |input| ==> input[i] != '1'
    {
      n := n + 1;
    }
    if n < |input| {
      TailLengthIs(input, n);
    }
    if 1 + n >= |input| || n < 6 {
      return None;
    }
    var hrpIn, tail := input[..|input| - 1 - n], input[|input| - n..];
    var ok, hrp, chk, low1, up1 := ReadHrp(hrpIn);
    if !ok {
      return None;
    }
    chk := PolymodStep(chk);
    chk := AbsorbLow(chk, hrpIn);
    var vs, low2, up2;
    ok, vs, chk, low2, up2 := ReadData(chk, tail);
    if !ok {
      return None;
    }
    CaseOfParts(input, n);
    if (low1 || low2) && (up1 || up2) {
      return None;
    }
    LowBitsOfLower(hrpIn);
    RegisterPasses(hrp, vs);
    if chk == FinalConstant(Plain) {
      return Some(Decoded(Plain, hrp, vs[..n - 6]));
    } else if chk == FinalConstant(M) {
      return Some(Decoded(M, hrp, vs[..n - 6]));
    } else {
      return None;
    }
  }
}
