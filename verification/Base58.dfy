/** Base58 text of byte strings: `b58enc` and `b58tobin`.

    `Encoding` and `Decoding` are the reference definitions, stated on whole numbers.
    The methods are the in-place conversions of the source: a base-58 digit buffer with
    its `high` skip, and an array of 32-bit words with a partial top word. */
module Base58 {
  import opened Numerals

  const ALPHABET: string :=
    "123456789" + "ABCDEFGH" + "JKLMN" + "PQRSTUVWXYZ" + "abcdefghijk" + "mnopqrstuvwxyz"

  const WORD: nat := 0x1_0000_0000

  /** The character of a digit. */
  function CharOf(d: nat): (c: char)
    requires d < 58
  {
    if d < 9 then (d + 49) as char
    else if d < 17 then (d + 56) as char
    else if d < 22 then (d + 57) as char
    else if d < 33 then (d + 58) as char
    else if d < 44 then (d + 64) as char
    else (d + 65) as char
  }

  /** The ordered digit table lists exactly these characters. */
  lemma AlphabetIsCharOf(d: nat)
    requires d < 58
    ensures |ALPHABET| == 58 && ALPHABET[d] == CharOf(d)
  {
  }

  /** The reverse table: the digit of a character, or -1. */
  function DigitOf(c: char): (d: int)
    ensures -1 <= d < 58
    ensures d >= 0 ==> CharOf(d) == c
    ensures d == -1 ==> forall e: nat :: e < 58 ==> CharOf(e) != c
  {
    var k := c as int;
    if 49 <= k <= 57 then k - 49
    else if 65 <= k <= 72 then k - 56
    else if 74 <= k <= 78 then k - 57
    else if 80 <= k <= 90 then k - 58
    else if 97 <= k <= 107 then k - 64
    else if 109 <= k <= 122 then k - 65
    else -1
  }

  lemma DigitOfCharOf(d: nat)
    requires d < 58
    ensures DigitOf(CharOf(d)) == d
  {
  }

  /** The alphabet: the digits and letters in their order, without the four that look alike. */
  predicate InAlphabet(c: char) {
    ('1' <= c <= '9' || 'A' <= c <= 'Z' || 'a' <= c <= 'z') && c != 'I' && c != 'O' && c != 'l'
  }

  /** Its digits ascend. */
  lemma AlphabetSorted(d: nat, e: nat)
    requires d < e < 58
    ensures |ALPHABET| == 58 && ALPHABET[d] < ALPHABET[e]
  {
    AlphabetIsCharOf(d);
    AlphabetIsCharOf(e);
    hide *;
    CharOfAscends(d, e);
  }

  lemma CharOfAscends(d: nat, e: nat)
    requires d < e < 58
    ensures CharOf(d) < CharOf(e)
  {
  }

  /** They are all of its characters. */
  lemma AlphabetHolds(c: char)
    ensures InAlphabet(c) <==> exists d: nat :: d < 58 && CharOf(d) == c
  {
    hide CharOf;
    InAlphabetIffDigit(c);
    if InAlphabet(c) {
      assert CharOf(DigitOf(c)) == c;
    }
  }

  lemma InAlphabetIffDigit(c: char)
    ensures InAlphabet(c) <==> DigitOf(c) >= 0
  {
  }

  // ---------------------------------------------------------------- reference definitions

  function LeadingZeros(s: seq<nat>): (z: nat)
    ensures z <= |s| && AllZero(s[..z])
    ensures z < |s| ==> s[z] != 0
  {
    if s == [] || s[0] != 0 then 0
    else
      var y := LeadingZeros(s[1..]);
      assert s[..1 + y] == [s[0]] + s[1..][..y];
      1 + y
  }

  /** The base-58 digits of `v`, with no leading zero; 0 has none. */
  function Canonical(v: nat): seq<nat> {
    if v == 0 then [] else Canonical(v / 58) + [v % 58]
  }

  function Chars(digits: seq<nat>): (text: string)
    requires Digits(digits, 58)
    ensures |text| == |digits|
  {
    seq(|digits|, i requires 0 <= i < |digits| => CharOf(digits[i]))
  }

  ghost predicate IsBase58(text: string) {
    forall i :: 0 <= i < |text| ==> DigitOf(text[i]) >= 0
  }

  function TextDigits(text: string): (s: seq<nat>)
    requires IsBase58(text)
    ensures |s| == |text| && Digits(s, 58)
    ensures forall i :: 0 <= i < |s| ==> s[i] == DigitOf(text[i])
  {
    seq(|text|, i requires 0 <= i < |text| => DigitOf(text[i]))
  }

  function Ones(n: nat): string {
    seq(n, _ => '1')
  }

  /** One '1' per leading zero byte, then the number in base 58. */
  ghost function Encoding(bin: seq<Byte>): string {
    CanonicalOf(Value(bin, 256));
    Ones(LeadingZeros(bin)) + Chars(Canonical(Value(bin, 256)))
  }

  function LeadingOnes(text: string): (z: nat)
    ensures z <= |text| && forall i :: 0 <= i < z ==> text[i] == '1'
    ensures z < |text| ==> text[z] != '1'
  {
    if text == [] || text[0] != '1' then 0 else 1 + LeadingOnes(text[1..])
  }

  /** `bytes` is the number of `text` as exactly `n` big-endian bytes. */
  ghost predicate Decodes(text: string, n: nat, bytes: seq<Byte>) {
    IsBase58(text) && |bytes| == n && Value(bytes, 256) == Value(TextDigits(text), 58)
  }

  /** The byte count that `b58tobin` reports: the number's own bytes and one per leading '1'. */
  ghost function DecodedSize(text: string, bytes: seq<Byte>): nat {
    |bytes| - LeadingZeros(bytes) + LeadingOnes(text)
  }

  // ---------------------------------------------------------------- facts about them

  lemma {:induction false} CanonicalOf(v: nat)
    ensures var s := Canonical(v);
      Digits(s, 58) && Value(s, 58) == v && (s == [] || s[0] > 0)
    decreases v
  {
    if v == 0 {
    } else {
      CanonicalOf(v / 58);
      ValueSnoc(Canonical(v / 58), v % 58, 58);
    }
  }

  /** `s` without its leading zeros is the canonical numeral of its value. */
  lemma StripIsCanonical(s: seq<nat>)
    requires Digits(s, 58)
    ensures s[LeadingZeros(s)..] == Canonical(Value(s, 58))
  {
    var z := LeadingZeros(s);
    ValueSkipZeros(s, z, 58);
    CanonicalOf(Value(s, 58));
    CanonicalInjective(s[z..], Canonical(Value(s, 58)), 58);
  }

  lemma TextDigitsOfChars(digits: seq<nat>)
    requires Digits(digits, 58)
    ensures IsBase58(Chars(digits)) && TextDigits(Chars(digits)) == digits
  {
    forall i | 0 <= i < |digits|
      ensures DigitOf(Chars(digits)[i]) == digits[i]
    {
      DigitOfCharOf(digits[i]);
    }
  }

  lemma LeadingOnesAre(text: string, z: nat)
    requires z <= |text| && (forall i :: 0 <= i < z ==> text[i] == '1')
    requires z < |text| ==> text[z] != '1'
    ensures LeadingOnes(text) == z
  {
    if z == 0 {
    } else {
      assert text[0] == '1';
      LeadingOnesAre(text[1..], z - 1);
    }
  }

  lemma LeadingZerosAre(s: seq<nat>, z: nat)
    requires z <= |s| && AllZero(s[..z])
    requires z < |s| ==> s[z] != 0
    ensures LeadingZeros(s) == z
  {
    if z == 0 {
    } else {
      assert s[0] == s[..z][0];
      assert s[1..][..z - 1] == s[..z][1..];
      LeadingZerosAre(s[1..], z - 1);
    }
  }

  lemma TextDigitsConcat(a: string, b: string)
    requires IsBase58(a) && IsBase58(b)
    ensures IsBase58(a + b) && TextDigits(a + b) == TextDigits(a) + TextDigits(b)
  {
  }

  lemma OnesAreZeros(text: string)
    requires forall i :: 0 <= i < |text| ==> text[i] == '1'
    ensures IsBase58(text) && AllZero(TextDigits(text))
  {
  }

  lemma CharsStart(digits: seq<nat>)
    requires Digits(digits, 58) && digits != [] && digits[0] > 0
    ensures Chars(digits)[0] != '1'
  {
    DigitOfCharOf(digits[0]);
  }

  lemma OnesThenDigits(z: nat, c: seq<nat>)
    requires Digits(c, 58) && (c == [] || c[0] > 0)
    ensures var text := Ones(z) + Chars(c);
      IsBase58(text) && Value(TextDigits(text), 58) == Value(c, 58) && LeadingOnes(text) == z
  {
    var text := Ones(z) + Chars(c);
    TextDigitsOfChars(c);
    OnesAreZeros(Ones(z));
    TextDigitsConcat(Ones(z), Chars(c));
    assert TextDigits(text)[..z] == TextDigits(Ones(z));
    assert TextDigits(text)[z..] == c;
    ValueSkipZeros(TextDigits(text), z, 58);
    if c != [] {
      CharsStart(c);
    }
    LeadingOnesAre(text, z);
  }

  /** The text of `bin` is base 58, writes the same number, and has a '1' for each zero byte. */
  lemma EncodingReads(bin: seq<Byte>)
    ensures var text := Encoding(bin);
      IsBase58(text) && Value(TextDigits(text), 58) == Value(bin, 256)
      && LeadingOnes(text) == LeadingZeros(bin)
  {
    CanonicalOf(Value(bin, 256));
    OnesThenDigits(LeadingZeros(bin), Canonical(Value(bin, 256)));
  }

  /** Decoding the text of `bin` into a buffer of `bin`'s length gives back `bin`,
      zero bytes included, and reports its full length; and that text is accepted. */
  lemma RoundTrip(bin: seq<Byte>, bytes: seq<Byte>)
    ensures Decodes(Encoding(bin), |bin|, bytes) <==> bytes == bin
    ensures DecodedSize(Encoding(bin), bin) == |bin|
    ensures IsBase58(Encoding(bin)) && Value(TextDigits(Encoding(bin)), 58) < Pow(256, |bin|)
  {
    hide Value, Pow, Encoding, TextDigits, IsBase58;
    EncodingReads(bin);
    ValueBound(bin, 256);
    if Decodes(Encoding(bin), |bin|, bytes) {
      ValueInjective(bytes, bin, 256);
    }
  }

  /** Cutting `s` down to `o` leading zeros keeps its value. */
  lemma TrimZeros(s: seq<nat>, o: nat, b: nat)
    requires o <= LeadingZeros(s)
    ensures var t := s[LeadingZeros(s) - o..];
      LeadingZeros(t) == o && Value(t, b) == Value(s, b)
  {
    var z := LeadingZeros(s);
    var k := z - o;
    var t := s[k..];
    assert t[..o] == s[..z][k..];
    assert o < |t| ==> t[o] == s[z];
    LeadingZerosAre(t, o);
    assert s[..k] == s[..z][..k];
    ValueSkipZeros(s, k, b);
  }

  lemma LeadingOnesAreZeros(text: string)
    requires IsBase58(text)
    ensures LeadingZeros(TextDigits(text)) == LeadingOnes(text)
  {
    var o, d := LeadingOnes(text), TextDigits(text);
    OnesAreZeros(text[..o]);
    assert d[..o] == TextDigits(text[..o]);
    if o < |text| {
      assert CharOf(d[o]) == text[o] && CharOf(0) == '1';
    }
    LeadingZerosAre(d, o);
  }

  lemma RestIsCanonical(text: string)
    requires IsBase58(text)
    ensures TextDigits(text)[LeadingOnes(text)..] == Canonical(Value(TextDigits(text), 58))
  {
    LeadingOnesAreZeros(text);
    StripIsCanonical(TextDigits(text));
  }

  lemma CharsOfRest(text: string, o: nat, c: seq<nat>)
    requires IsBase58(text) && o <= |text| && TextDigits(text)[o..] == c
    ensures Digits(c, 58) && Chars(c) == text[o..]
  {
    forall i | 0 <= i < |c|
      ensures c[i] < 58 && CharOf(c[i]) == text[o..][i]
    {
      assert c[i] == TextDigits(text)[o + i];
    }
  }

  /** A base-58 text is its leading '1's and the canonical digits of its number. */
  lemma TextShape(text: string)
    requires IsBase58(text)
    ensures var c := Canonical(Value(TextDigits(text), 58));
      Digits(c, 58) && text == Ones(LeadingOnes(text)) + Chars(c)
  {
    hide Value, Canonical, TextDigits, CharOf, DigitOf;
    var o := LeadingOnes(text);
    var c := Canonical(Value(TextDigits(text), 58));
    RestIsCanonical(text);
    CharsOfRest(text, o, c);
    assert text == Ones(o) + text[o..];
  }

  /** The reported size fits the buffer exactly when the number leaves room for a byte per leading '1'. */
  lemma SizeFits(text: string, bytes: seq<Byte>)
    requires Decodes(text, |bytes|, bytes)
    ensures DecodedSize(text, bytes) <= |bytes| <==> Roomy(text, |bytes|)
  {
    var o, z := LeadingOnes(text), LeadingZeros(bytes);
    if o <= z {
      ValueSkipZeros(bytes, o, 256);
      ValueBound(bytes[o..], 256);
    } else if o <= |bytes| {
      ValueSkipZeros(bytes, z, 256);
      ValueLeading(bytes[z..], 256);
      PowMonotone(256, |bytes| - o, |bytes| - z - 1);
    }
  }

  /** `n` bytes hold the number of `text` and, before it, a zero byte for each leading '1'. */
  ghost predicate Roomy(text: string, n: nat) {
    var o := LeadingOnes(text);
    IsBase58(text) && o <= n && Value(TextDigits(text), 58) < Pow(256, n - o)
  }

  /** A decoded text is the encoding of some last bytes of its buffer exactly when the buffer is roomy,
      and then of those the reported size names. */
  lemma DecodeEncode(text: string, bytes: seq<Byte>)
    requires Decodes(text, |bytes|, bytes)
    ensures (exists k :: 0 <= k <= |bytes| && Encoding(bytes[k..]) == text) <==> Roomy(text, |bytes|)
    ensures Roomy(text, |bytes|) ==>
        DecodedSize(text, bytes) <= |bytes| && Encoding(bytes[|bytes| - DecodedSize(text, bytes)..]) == text
  {
    hide Decodes, Roomy, Encoding;
    SizeFits(text, bytes);
    if Roomy(text, |bytes|) {
      LastBytes(text, bytes);
    } else {
      forall k | 0 <= k <= |bytes| ensures Encoding(bytes[k..]) != text {
        EncodingFits(text, bytes, k);
      }
    }
  }

  lemma LastBytes(text: string, bytes: seq<Byte>)
    requires Decodes(text, |bytes|, bytes) && DecodedSize(text, bytes) <= |bytes|
    ensures Encoding(bytes[|bytes| - DecodedSize(text, bytes)..]) == text
  {
    hide Value, TextDigits, Canonical, CharOf, DigitOf, Pow;
    TrimZeros(bytes, LeadingOnes(text), 256);
    TextShape(text);
  }

  lemma EncodingFits(text: string, bytes: seq<Byte>, k: nat)
    requires Decodes(text, |bytes|, bytes) && k <= |bytes|
    ensures Encoding(bytes[k..]) == text ==> Roomy(text, |bytes|)
  {
    hide Encoding, Value, Pow, TextDigits, IsBase58;
    var b, o := bytes[k..], LeadingOnes(text);
    if Encoding(b) == text {
      EncodingReads(b);
      ValueSkipZeros(b, o, 256);
      ValueBound(b[o..], 256);
      PowMonotone(256, |b| - o, |bytes| - o);
    }
  }

  /** Two '1's decode into one byte, with a reported size the buffer does not have. */
  lemma SizeOverruns()
    ensures Decodes("11", 1, [0]) && DecodedSize("11", [0]) == 2
  {
    var text: string, bytes: seq<Byte> := "11", [0];
    LeadingOnesAre(text, 2);
    LeadingZerosAre(bytes, 1);
    ValueZeros(TextDigits(text), 58);
    ValueZeros(bytes, 256);
  }

  // ---------------------------------------------------------------- the size of the buffer

  /** The digit buffer of `b58enc` for `n` significant bytes. */
  function BufferSize(n: nat): nat {
    n * 138 / 100 + 1
  }

  /** Scaling a bound by eight bytes and eleven digits. */
  lemma BoundStep(m: nat, s: nat)
    ensures Pow(256, m) <= Pow(58, s) ==> Pow(256, m + 8) <= Pow(58, s + 11)
    ensures Pow(256, m) < Pow(58, s) ==> Pow(256, m + 8) < Pow(58, s + 11)
  {
    EightBytes();
    PowAdd(256, m, 8);
    PowAdd(58, s, 11);
    var p, q := Pow(256, m), Pow(58, s);
    assert p <= q ==> p * Pow(256, 8) <= q * Pow(58, 11);
  }

  lemma BoundScaled(m: nat, s: nat, t: nat)
    requires m > 0 && s > 0 && s + 11 <= t
    requires Pow(256, m) < Pow(58, s) && Pow(256, m - 1) <= Pow(58, s - 1)
    ensures Pow(256, m + 8) < Pow(58, t) && Pow(256, m + 7) <= Pow(58, t - 1)
  {
    BoundStep(m, s);
    BoundStep(m - 1, s - 1);
    PowMonotone(58, s + 11, t);
    PowMonotone(58, s + 10, t - 1);
  }

  lemma BoundBase(n: nat)
    requires n <= 8
    ensures Pow(256, n) < Pow(58, BufferSize(n))
    ensures n > 0 ==> Pow(256, n - 1) <= Pow(58, BufferSize(n) - 1)
  {
    SmallPowers();
    EightBytes();
    PowMonotone(58, 10, 11);
    match n
    case 8 => assert BufferSize(n) == 12;
              PowMonotone(58, 11, 12);
    case _ =>
  }

  /** The buffer is large enough for `n` bytes, and all but the last of them leave its
      first digit untouched: 256^8 < 58^11 while eight bytes add at least eleven digits. */
  lemma {:induction false} BufferBound(n: nat)
    ensures Pow(256, n) < Pow(58, BufferSize(n))
    ensures n > 0 ==> Pow(256, n - 1) <= Pow(58, BufferSize(n) - 1)
  {
    if n <= 8 {
      BoundBase(n);
    } else {
      BufferBound(n - 8);
      BoundScaled(n - 8, BufferSize(n - 8), BufferSize(n));
    }
  }

  lemma SmallPowers()
    ensures Pow(256, 0) == 1 && Pow(256, 1) == 256 && Pow(256, 2) == 65536 && Pow(256, 3) == 16777216
    ensures Pow(256, 4) == 4294967296 && Pow(256, 5) == 1099511627776
    ensures Pow(256, 6) == 281474976710656 && Pow(256, 7) == 72057594037927936
    ensures Pow(58, 0) == 1 && Pow(58, 1) == 58 && Pow(58, 2) == 3364 && Pow(58, 3) == 195112
    ensures Pow(58, 4) == 11316496 && Pow(58, 5) == 656356768 && Pow(58, 6) == 38068692544
    ensures Pow(58, 7) == 2207984167552 && Pow(58, 8) == 128063081718016
    ensures Pow(58, 9) == 7427658739644928 && Pow(58, 10) == 430804206899405824
  {
  }

  lemma EightBytes()
    ensures Pow(256, 8) == 18446744073709551616 && Pow(58, 11) == 24986644000165537792
    ensures Pow(256, 8) < Pow(58, 11)
  {
    SmallPowers();
  }

  // ---------------------------------------------------------------- b58enc

  /** The inner loop of `b58enc`: multiply the digit buffer by 256 and add `byte`, in place,
      touching only the digits right of `high` and those the carry reaches. `j` is where it
      stopped. Nothing is carried out of the first digit. */
  method PushByte(buf: array<nat>, high: nat, byte: Byte) returns (j: nat)
    requires high < buf.Length
    requires Digits(buf[..], 58) && AllZero(buf[..high + 1])
    requires Value(buf[..], 58) * 256 + byte < Pow(58, buf.Length)
    modifies buf
    ensures Digits(buf[..], 58)
    ensures Value(buf[..], 58) == Value(old(buf[..]), 58) * 256 + byte
    ensures j < buf.Length
    ensures AllZero(buf[..j + 1]) || (j == 0 && buf[0] > 0)
  {
    var carry: nat := byte;
    j := buf.Length - 1;
    ghost var was, now := buf[..], buf[..];
    while j > high || carry != 0
      invariant j < buf.Length && carry <= 256
      invariant now == buf[..] && Digits(now, 58)
      invariant Pushing(was, now, j + 1, byte, carry)
      decreases j
    {
      assert buf[j] == now[j];
      var t := carry + 256 * buf[j];
      PushStep(was, now, j, byte, carry, t);
      now := now[j := t % 58];
      buf[j], carry := t % 58, t / 58;
      if j == 0 {
        PushOverflow(was, now, byte, carry);
        return;
      }
      j := j - 1;
    }
    PushDone(was, now, j, high, byte);
  }

  /** The digits from `k` on hold their part of `was * 256 + byte`, up to `carry`. */
  ghost predicate Pushing(was: seq<nat>, now: seq<nat>, k: nat, byte: nat, carry: nat) {
    k <= |was| == |now| && now[..k] == was[..k]
    && Value([carry] + now[k..], 58) == Value(was[k..], 58) * 256 + byte
  }

  lemma PushStep(was: seq<nat>, now: seq<nat>, j: nat, byte: nat, carry: nat, t: nat)
    requires j < |now| && Digits(now, 58) && Pushing(was, now, j + 1, byte, carry)
    requires t == carry + 256 * now[j] && carry <= 256
    ensures Pushing(was, now[j := t % 58], j, byte, t / 58) && t / 58 <= 256
    ensures Digits(now[j := t % 58], 58)
  {
    UpdateSplit(was, now, j, t % 58);
    CarryDigit(was[j + 1..], now[j + 1..], 58, 256, byte, was[j], t % 58, carry, t / 58);
  }

  /** At the first digit nothing is left to carry. */
  lemma PushOverflow(was: seq<nat>, now: seq<nat>, byte: nat, carry: nat)
    requires was != [] && Digits(now, 58) && Pushing(was, now, 0, byte, carry)
    requires Value(was, 58) * 256 + byte < Pow(58, |was|)
    ensures carry == 0 && Value(now, 58) == Value(was, 58) * 256 + byte
    ensures AllZero(now[..1]) || now[0] > 0
  {
    assert was[0..] == was && now[0..] == now;
    CarryOut(now, carry, 58);
  }

  lemma PushDone(was: seq<nat>, now: seq<nat>, j: nat, high: nat, byte: nat)
    requires j <= high < |was| && AllZero(was[..high + 1])
    requires Pushing(was, now, j + 1, byte, 0)
    ensures AllZero(now[..j + 1]) && Value(now, 58) == Value(was, 58) * 256 + byte
  {
    assert was[..j + 1] == was[..high + 1][..j + 1];
    CarryOut(now[j + 1..], 0, 58);
    ValueSkipZeros(was, j + 1, 58);
    ValueSkipZeros(now, j + 1, 58);
  }

  lemma PrefixFits(bytes: seq<Byte>, k: nat)
    requires k < |bytes|
    ensures Value(bytes[..k + 1], 256) == Value(bytes[..k], 256) * 256 + bytes[k]
    ensures Value(bytes[..k + 1], 256) < Pow(58, BufferSize(|bytes|))
    ensures k + 1 < |bytes| ==> Value(bytes[..k + 1], 256) < Pow(58, BufferSize(|bytes|) - 1)
  {
    assert bytes[..k + 1] == bytes[..k] + [bytes[k]];
    ValueSnoc(bytes[..k], bytes[k], 256);
    ValueBound(bytes[..k + 1], 256);
    PrefixPower(k + 1, |bytes|);
  }

  lemma PrefixPower(k: nat, n: nat)
    requires k <= n
    ensures Pow(256, k) <= Pow(58, BufferSize(n))
    ensures k < n ==> Pow(256, k) <= Pow(58, BufferSize(n) - 1)
  {
    BufferBound(n);
    PowMonotone(256, k, n);
    if k < n {
      PowMonotone(256, k, n - 1);
    }
  }

  lemma FirstDigitFree(s: seq<nat>, b: nat)
    requires s != [] && Value(s, b) < Pow(b, |s| - 1)
    ensures s[0] == 0
  {
    if s[0] > 0 {
      ValueLeading(s, b);
    }
  }

  /** The conversion loop of `b58enc` on the bytes after the leading zeros. */
  method ToBase58(bytes: seq<Byte>, buf: array<nat>)
    requires buf.Length == BufferSize(|bytes|) && AllZero(buf[..])
    modifies buf
    ensures Digits(buf[..], 58) && Value(buf[..], 58) == Value(bytes, 256)
  {
    var i, high: nat := 0, buf.Length - 1;
    ValueZeros(buf[..], 58);
    while i < |bytes|
      invariant i <= |bytes| && high < buf.Length
      invariant Digits(buf[..], 58) && Value(buf[..], 58) == Value(bytes[..i], 256)
      invariant i < |bytes| ==> AllZero(buf[..high + 1])
    {
      PrefixFits(bytes, i);
      high := PushByte(buf, high, bytes[i]);
      i := i + 1;
      if i < |bytes| {
        FirstDigitFree(buf[..], 58);
      }
    }
    assert bytes[..i] == bytes;
  }

  /** Write `zcount` ones, the digits of `buf` from `j` on, and the terminator. */
  method WriteText(b58: array<char>, zcount: nat, buf: array<nat>, j: nat)
    requires j <= buf.Length && Digits(buf[j..], 58)
    requires zcount + (buf.Length - j) < b58.Length
    modifies b58
    ensures b58[..] == Ones(zcount) + Chars(buf[j..]) + ['\0']
                     + old(b58[zcount + (buf.Length - j) + 1..])
  {
    ghost var was, digits := b58[..], buf[j..];
    ghost var text := Ones(zcount) + Chars(digits);
    var i := 0;
    while i < zcount
      invariant i <= zcount
      invariant forall q :: 0 <= q < i ==> b58[q] == text[q]
      invariant forall q :: i <= q < b58.Length ==> b58[q] == was[q]
    {
      b58[i] := '1';
      i := i + 1;
    }
    var k := j;
    while k < buf.Length
      invariant j <= k <= buf.Length && i == zcount + (k - j)
      invariant forall q :: 0 <= q < i ==> b58[q] == text[q]
      invariant forall q :: i <= q < b58.Length ==> b58[q] == was[q]
    {
      assert buf[k] == digits[k - j];
      AlphabetIsCharOf(buf[k]);
      b58[i] := ALPHABET[buf[k]];
      i, k := i + 1, k + 1;
    }
    b58[i] := '\0';
    assert b58[..i] == text;
    assert b58[i + 1..] == was[i + 1..];
    assert b58[..] == b58[..i] + [b58[i]] + b58[i + 1..];
  }

  /** `b58enc`: the text needs one place more than its length for the terminator. */
  method B58Enc(b58: array<char>, b58sz: nat, bin: seq<Byte>) returns (ok: bool, newsz: nat)
    requires b58sz <= b58.Length
    modifies b58
    ensures newsz == |Encoding(bin)| + 1 && (ok <==> newsz <= b58sz)
    ensures ok ==> b58[..] == Encoding(bin) + ['\0'] + old(b58[newsz..])
    ensures !ok ==> b58[..] == old(b58[..])
  {
    var zcount: nat := 0;
    while zcount < |bin| && bin[zcount] == 0
      invariant zcount <= |bin| && AllZero(bin[..zcount])
    {
      zcount := zcount + 1;
    }
    var size := BufferSize(|bin| - zcount);
    var buf := new nat[size](_ => 0);
    ToBase58(bin[zcount..], buf);
    var j := 0;
    while j < size && buf[j] == 0
      invariant j <= size && AllZero(buf[..j])
    {
      j := j + 1;
    }
    EncodingFromBuffer(bin, zcount, buf[..], j);
    assert buf[..][j..] == buf[j..];
    newsz := zcount + (size - j) + 1;
    if b58sz <= zcount + (size - j) {
      return false, newsz;
    }
    WriteText(b58, zcount, buf, j);
    ok := true;
  }

  lemma EncodingFromBuffer(bin: seq<Byte>, z: nat, buf: seq<nat>, j: nat)
    requires z <= |bin| && AllZero(bin[..z]) && (z < |bin| ==> bin[z] != 0)
    requires Digits(buf, 58) && Value(buf, 58) == Value(bin[z..], 256)
    requires j <= |buf| && AllZero(buf[..j]) && (j < |buf| ==> buf[j] != 0)
    ensures Digits(buf[j..], 58) && Encoding(bin) == Ones(z) + Chars(buf[j..])
  {
    LeadingZerosAre(bin, z);
    ValueSkipZeros(bin, z, 256);
    LeadingZerosAre(buf, j);
    StripIsCanonical(buf);
  }

  // ---------------------------------------------------------------- b58tobin

  lemma WordPow(k: nat)
    ensures Pow(WORD, k) == Pow(256, 4 * k)
  {
    if k == 0 {
    } else {
      WordPow(k - 1);
      SmallPowers();
      PowAdd(256, 4, 4 * (k - 1));
    }
  }

  function WordCount(binsz: nat): nat {
    (binsz + 3) / 4
  }

  /** The words fit in `binsz` bytes exactly when the partial top word, if there is one,
      fits in its `binsz % 4` bytes: the test against `zeromask`. */
  lemma TopWord(w: seq<nat>, binsz: nat)
    requires Digits(w, WORD) && |w| == WordCount(binsz)
    ensures binsz % 4 == 0 ==> Value(w, WORD) < Pow(256, binsz)
    ensures binsz % 4 > 0 ==>
      (Value(w, WORD) < Pow(256, binsz) <==> w[0] < Pow(256, binsz % 4))
  {
    var r := binsz % 4;
    WordPow(|w|);
    ValueBound(w, WORD);
    if r > 0 {
      var low := w[1..];
      assert binsz == r + 4 * |low|;
      TopPower(r, |low|);
      assert w == [w[0]] + low;
      ValueCons(w[0], low, WORD);
      ValueBound(low, WORD);
      LeadCompare(w[0], Value(low, WORD), Pow(WORD, |low|), Pow(256, r));
    }
  }

  lemma TopPower(r: nat, k: nat)
    ensures Pow(256, r + 4 * k) == Pow(256, r) * Pow(WORD, k)
  {
    WordPow(k);
    PowAdd(256, r, 4 * k);
  }

  lemma LeadCompare(x: nat, low: nat, p: nat, limit: nat)
    requires low < p
    ensures x * p + low < limit * p <==> x < limit
  {
    if x < limit {
      MulStep(x, limit, p);
    } else {
      MulMonotone(limit, x, p);
    }
  }

  /** The inner loop of `b58tobin`: `outi * 58 + c0` in 32-bit words; `c` is carried out. */
  method MulAddWords(outi: array<nat>, c0: nat) returns (c: nat)
    requires Digits(outi[..], WORD) && c0 < 58
    modifies outi
    ensures Digits(outi[..], WORD)
    ensures Value([c] + outi[..], WORD) == Value(old(outi[..]), WORD) * 58 + c0
  {
    c := c0;
    ghost var was, now := outi[..], outi[..];
    var j := outi.Length;
    while j > 0
      invariant 0 <= j <= outi.Length && c < 58
      invariant now == outi[..] && Digits(now, WORD)
      invariant MulAdding(was, now, j, c0, c)
    {
      j := j - 1;
      assert outi[j] == now[j];
      var t := outi[j] * 58 + c;
      MulAddStep(was, now, j, c0, c, t);
      now := now[j := t % WORD];
      c, outi[j] := t / WORD, t % WORD;
    }
    assert was[0..] == was && now[0..] == now;
  }

  ghost predicate MulAdding(was: seq<nat>, now: seq<nat>, k: nat, c0: nat, c: nat) {
    k <= |was| == |now| && now[..k] == was[..k]
    && Value([c] + now[k..], WORD) == Value(was[k..], WORD) * 58 + c0
  }

  lemma MulAddStep(was: seq<nat>, now: seq<nat>, j: nat, c0: nat, c: nat, t: nat)
    requires j < |now| && Digits(now, WORD) && MulAdding(was, now, j + 1, c0, c)
    requires t == now[j] * 58 + c && c < 58
    ensures MulAdding(was, now[j := t % WORD], j, c0, t / WORD) && t / WORD < 58
    ensures Digits(now[j := t % WORD], WORD)
  {
    UpdateSplit(was, now, j, t % WORD);
    CarryDigit(was[j + 1..], now[j + 1..], WORD, 58, c0, was[j], t % WORD, c, t / WORD);
  }

  /** One more digit that overflows makes the whole text too large, whatever follows. */
  lemma TooLarge(text: string, i: nat, limit: nat)
    requires i < |text| && IsBase58(text[..i + 1])
    requires Value(TextDigits(text[..i + 1]), 58) >= limit
    ensures IsBase58(text) ==> Value(TextDigits(text), 58) >= limit
  {
    if IsBase58(text) {
      assert TextDigits(text[..i + 1]) == TextDigits(text)[..i + 1];
      ValuePrefix(TextDigits(text), i + 1, 58);
    }
  }

  lemma NextDigit(text: string, i: nat)
    requires i < |text| && IsBase58(text[..i]) && DigitOf(text[i]) >= 0
    ensures IsBase58(text[..i + 1])
    ensures Value(TextDigits(text[..i + 1]), 58) == Value(TextDigits(text[..i]), 58) * 58 + DigitOf(text[i])
  {
    assert text[..i + 1] == text[..i] + [text[i]];
    TextDigitsConcat(text[..i], [text[i]]);
    assert TextDigits([text[i]]) == [DigitOf(text[i]) as nat];
    ValueSnoc(TextDigits(text[..i]), DigitOf(text[i]), 58);
  }

  /** The words hold the number of the first `i` characters, and it fits in `binsz` bytes. */
  ghost predicate Reading(text: string, i: nat, w: seq<nat>, binsz: nat) {
    i <= |text| && IsBase58(text[..i]) && Digits(w, WORD) && |w| == WordCount(binsz)
    && Value(w, WORD) == Value(TextDigits(text[..i]), 58) < Pow(256, binsz)
  }

  /** The two rejections after digit `i`, the carry and the top word, together decide
      whether the number read so far still fits. */
  lemma ReadStep(text: string, i: nat, was: seq<nat>, w: seq<nat>, c: nat, binsz: nat)
    requires i < |text| && DigitOf(text[i]) >= 0 && Reading(text, i, was, binsz)
    requires Digits(w, WORD) && |w| == |was|
    requires Value([c] + w, WORD) == Value(was, WORD) * 58 + DigitOf(text[i])
    ensures if c == 0 && (binsz % 4 == 0 || w[0] / Pow(256, binsz % 4) == 0)
      then Reading(text, i + 1, w, binsz)
      else IsBase58(text) ==> Value(TextDigits(text), 58) >= Pow(256, binsz)
  {
    ReadValue(text, i, Value([c] + w, WORD), binsz);
    CarryOut(w, c, WORD);
    if c > 0 {
      WordsHold(|w|, binsz);
    } else {
      TopTest(w, binsz);
    }
  }

  lemma ReadValue(text: string, i: nat, v: nat, binsz: nat)
    requires i < |text| && DigitOf(text[i]) >= 0 && IsBase58(text[..i])
    requires v == Value(TextDigits(text[..i]), 58) * 58 + DigitOf(text[i])
    ensures IsBase58(text[..i + 1]) && v == Value(TextDigits(text[..i + 1]), 58)
    ensures v >= Pow(256, binsz) ==> IsBase58(text) ==> Value(TextDigits(text), 58) >= Pow(256, binsz)
  {
    NextDigit(text, i);
    if v >= Pow(256, binsz) {
      TooLarge(text, i, Pow(256, binsz));
    }
  }

  lemma WordsHold(k: nat, binsz: nat)
    requires k == WordCount(binsz)
    ensures Pow(256, binsz) <= Pow(WORD, k)
  {
    WordPow(k);
    PowMonotone(256, binsz, 4 * k);
  }

  lemma TopTest(w: seq<nat>, binsz: nat)
    requires Digits(w, WORD) && |w| == WordCount(binsz)
    ensures Value(w, WORD) < Pow(256, binsz)
       <==> (binsz % 4 == 0 || w[0] / Pow(256, binsz % 4) == 0)
  {
    TopWord(w, binsz);
    if binsz % 4 > 0 {
      ShiftTest(w[0], Pow(256, binsz % 4));
    }
  }

  lemma ShiftTest(x: nat, p: nat)
    requires p > 0
    ensures x / p == 0 <==> x < p
  {
    assert x == (x / p) * p + x % p;
    if x / p > 0 {
      MulMonotone(1, x / p, p);
    }
  }

  lemma ReadStart(text: string, z: nat, w: seq<nat>, binsz: nat)
    requires z <= |text| && (forall i :: 0 <= i < z ==> text[i] == '1')
    requires AllZero(w) && |w| == WordCount(binsz)
    ensures Reading(text, z, w, binsz)
  {
    OnesAreZeros(text[..z]);
    ValueZeros(TextDigits(text[..z]), 58);
    ValueZeros(w, WORD);
  }

  /** The digit loop of `b58tobin`. The early exits agree with checking the final value. */
  method ReadWords(text: string, zerocount: nat, binsz: nat, outi: array<nat>) returns (ok: bool)
    requires zerocount == LeadingOnes(text)
    requires outi.Length == WordCount(binsz) && AllZero(outi[..])
    modifies outi
    ensures ok <==> IsBase58(text) && Value(TextDigits(text), 58) < Pow(256, binsz)
    ensures ok ==> Digits(outi[..], WORD) && Value(outi[..], WORD) == Value(TextDigits(text), 58)
  {
    var bytesleft := binsz % 4;
    ReadStart(text, zerocount, outi[..], binsz);
    var i := zerocount;
    while i < |text|
      invariant zerocount <= i && Reading(text, i, outi[..], binsz)
      invariant outi.Length == 0 ==> i == zerocount
    {
      if DigitOf(text[i]) == -1 {
        return false;
      }
      ghost var was := outi[..];
      var c := MulAddWords(outi, DigitOf(text[i]));
      ReadStep(text, i, was, outi[..], c, binsz);
      NoWords(text, i, outi[..], was, c);
      if c != 0 {
        return false;
      }
      // outi[0] & (0xffffffff << (8 * bytesleft)), compared with zero
      if bytesleft != 0 && outi[0] / Pow(256, bytesleft) != 0 {
        return false;
      }
      i := i + 1;
    }
    assert text[..i] == text;
    ok := true;
  }

  /** With no words at all the first digit after the leading ones is carried out at once,
      so the top word is never looked at. */
  lemma NoWords(text: string, i: nat, w: seq<nat>, was: seq<nat>, c: nat)
    requires LeadingOnes(text) <= i < |text| && |w| == |was| && DigitOf(text[i]) >= 0
    requires w == [] ==> i == LeadingOnes(text)
    requires Value([c] + w, WORD) == Value(was, WORD) * 58 + DigitOf(text[i])
    ensures w == [] ==> c != 0
  {
    assert CharOf(0) == '1';
  }

  /** The last `k` big-endian bytes of a word. */
  function WordBytes(w: nat, k: nat): (s: seq<Byte>)
    ensures |s| == k
  {
    seq(k, q requires 0 <= q < k => (w / Pow(256, k - 1 - q)) % 256)
  }

  lemma ShiftTwice(w: nat, e: nat)
    requires e < 4
    ensures (w / 256) / Pow(256, e) == w / Pow(256, e + 1)
  {
    SmallPowers();
    match e
    case 0 =>
    case 1 =>
    case 2 =>
    case 3 =>
  }

  lemma WordBytesPeel(w: nat, k: nat)
    requires 2 <= k <= 4
    ensures WordBytes(w, k) == WordBytes(w / 256, k - 1) + [w % 256]
  {
    forall q | 0 <= q < k - 1
      ensures WordBytes(w, k)[q] == WordBytes(w / 256, k - 1)[q]
    {
      ShiftTwice(w, k - 2 - q);
    }
    assert Pow(256, 0) == 1;
    assert WordBytes(w, k)[k - 1] == w % 256;
  }

  lemma DropByte(w: nat, p: nat)
    requires w < 256 * p
    ensures w / 256 < p
  {
  }

  lemma {:induction false} WordBytesValue(w: nat, k: nat)
    requires 1 <= k <= 4 && w < Pow(256, k)
    ensures Value(WordBytes(w, k), 256) == w
  {
    if k == 1 {
      SmallPowers();
      assert WordBytes(w, 1) == [w];
      ValueSingle(w, 256);
    } else {
      WordBytesPeel(w, k);
      DropByte(w, Pow(256, k - 1));
      WordBytesValue(w / 256, k - 1);
      ValueSnoc(WordBytes(w / 256, k - 1), w % 256, 256);
    }
  }

  lemma PowFour()
    ensures Pow(256, 4) == WORD
  {
    SmallPowers();
  }

  /** The byte loop: `w` shifted down byte by byte into `bin[p..p + k]`. */
  method PutWord(bin: array<Byte>, p: nat, w: nat, k: nat)
    requires 1 <= k <= 4 && p + k <= bin.Length
    modifies bin
    ensures bin[p..p + k] == WordBytes(w, k)
    ensures bin[..p] == old(bin[..p]) && bin[p + k..] == old(bin[p + k..])
  {
    var i := k;
    while i > 0
      invariant 0 <= i <= k
      invariant forall q :: 0 <= q < k - i ==> bin[p + q] == WordBytes(w, k)[q]
      invariant forall q :: 0 <= q < p || p + k - i <= q < bin.Length ==> bin[q] == old(bin[q])
    {
      bin[p + (k - i)] := (w / Pow(256, i - 1)) % 256;
      i := i - 1;
    }
  }

  /** `bytes` holds the first `j` words. */
  ghost predicate Written(bytes: seq<Byte>, words: seq<nat>, j: nat) {
    j <= |words| && Value(bytes, 256) == Value(words[..j], WORD)
  }

  lemma AppendWord(bytes: seq<Byte>, words: seq<nat>, j: nat, k: nat)
    requires Written(bytes, words, j) && j < |words|
    requires 1 <= k <= 4 && words[j] < Pow(256, k) && (j == 0 || k == 4)
    ensures Written(bytes + WordBytes(words[j], k), words, j + 1)
  {
    hide Value, Pow, WordBytes;
    var w := words[j];
    WordBytesValue(w, k);
    ValueConcat(bytes, WordBytes(w, k), 256);
    assert words[..j + 1] == words[..j] + [w];
    ValueSnoc(words[..j], w, WORD);
    if j == 0 {
      FirstWord(words, bytes, k);
    } else {
      PowFour();
    }
  }

  lemma FirstWord(words: seq<nat>, bytes: seq<Byte>, k: nat)
    requires Written(bytes, words, 0)
    ensures Value(words[..0], WORD) == 0 && Value(bytes, 256) * Pow(256, k) == 0
  {
    hide Pow;
    assert words[..0] == [];
  }

  /** Word `j` of the output, in its last `k` bytes. */
  method PutNext(bin: array<Byte>, p: nat, k: nat, ghost end: nat, outi: array<nat>, j: nat)
    requires 1 <= k <= 4 && p + k <= end <= bin.Length && j < outi.Length
    requires outi[j] < Pow(256, k) && (j == 0 || k == 4)
    requires Written(bin[..p], outi[..], j)
    modifies bin
    ensures Written(bin[..p + k], outi[..], j + 1)
    ensures bin[end..] == old(bin[end..])
  {
    AppendWord(bin[..p], outi[..], j, k);
    PutWord(bin, p, outi[j], k);
    SliceAppend(bin[..], p, k, end);
  }

  lemma SliceAppend(s: seq<Byte>, p: nat, k: nat, end: nat)
    requires p + k <= end <= |s|
    ensures s[..p + k] == s[..p] + s[p..p + k] && s[end..] == s[p + k..][end - (p + k)..]
  {
  }

  /** The output loops of `b58tobin`: the partial top word, then whole words. */
  method PutWords(bin: array<Byte>, binsz: nat, outi: array<nat>)
    requires binsz <= bin.Length && outi.Length == WordCount(binsz)
    requires Digits(outi[..], WORD) && Value(outi[..], WORD) < Pow(256, binsz)
    modifies bin
    ensures Value(bin[..binsz], 256) == Value(outi[..], WORD)
    ensures bin[binsz..] == old(bin[binsz..])
  {
    var j, p: nat := 0, 0;
    var bytesleft := binsz % 4;
    if bytesleft > 0 {
      TopWord(outi[..], binsz);
      PutNext(bin, 0, bytesleft, binsz, outi, 0);
      j, p := 1, bytesleft;
    }
    PowFour();
    while j < outi.Length
      invariant j <= outi.Length && p + 4 * (outi.Length - j) == binsz
      invariant Digits(outi[..], WORD) && Written(bin[..p], outi[..], j)
      invariant bin[binsz..] == old(bin[binsz..])
    {
      PutNext(bin, p, 4, binsz, outi, j);
      j, p := j + 1, p + 4;
    }
    assert outi[..][..j] == outi[..];
  }

  /** `b58tobin` with the text's length already known. The buffer receives the number as
      `binsz` big-endian bytes; it is untouched, like the size, when the text is refused. */
  method B58ToBin(bin: array<Byte>, binsz: nat, text: string) returns (ok: bool, newsz: nat)
    requires binsz <= bin.Length
    modifies bin
    ensures ok <==> IsBase58(text) && Value(TextDigits(text), 58) < Pow(256, binsz)
    ensures ok ==> Decodes(text, binsz, bin[..binsz]) && newsz == DecodedSize(text, bin[..binsz])
    ensures !ok ==> bin[..] == old(bin[..]) && newsz == binsz
    ensures bin[binsz..] == old(bin[binsz..])
  {
    newsz := binsz;
    var outi := new nat[WordCount(binsz)](_ => 0);
    var zerocount: nat := 0;
    while zerocount < |text| && text[zerocount] == '1'
      invariant zerocount <= |text| && forall i :: 0 <= i < zerocount ==> text[i] == '1'
    {
      zerocount := zerocount + 1;
    }
    LeadingOnesAre(text, zerocount);
    ok := ReadWords(text, zerocount, binsz, outi);
    if !ok {
      return;
    }
    PutWords(bin, binsz, outi);
    var i: nat := 0;
    while i < binsz && bin[i] == 0
      invariant i <= binsz && AllZero(bin[..i]) && newsz == binsz - i
    {
      newsz := newsz - 1;
      i := i + 1;
    }
    assert bin[..binsz][..i] == bin[..i];
    LeadingZerosAre(bin[..binsz], i);
    newsz := newsz + zerocount;
  }
}
