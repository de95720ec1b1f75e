/** SV2 frames on an encrypted wire: header and payload sealed apart, each under the next nonce.
    The cipher is an ideal box with the two laws every AEAD has. */
module Sv2Frames {
  import opened Wrappers
  import opened Numerals

  type Bytes = seq<Byte>

  const HEADER_SIZE: nat := 6
  const TAG_SIZE: nat := 16

  /** How many values a 64-bit counter takes. */
  function Counters(): (n: nat)
    ensures n > 0
  {
    Pow(256, 8)
  }

  /** The counter after one use: `uint64_t` arithmetic. */
  function After(counter: nat): nat {
    (counter + 1) % Counters()
  }

  /** Four zero bytes and the counter: section 5.1 of the Noise Protocol Framework. */
  function NonceBytes(counter: nat): (r: Bytes)
    ensures |r| == 12
  {
    [0, 0, 0, 0] + LowBytes(counter, 8)
  }

  lemma NonceInjective(a: nat, b: nat)
    requires a < Counters() && b < Counters()
    ensures NonceBytes(a) == NonceBytes(b) <==> a == b
  {
    hide Pow, LowBytes;
    if NonceBytes(a) == NonceBytes(b) {
      assert LowBytes(a, 8) == NonceBytes(a)[4..] && LowBytes(b, 8) == NonceBytes(b)[4..];
      LowBytesValue(a, 8);
      LowBytesValue(b, 8);
    }
  }

  /** Where a nonce keeps what: the counter is its last eight bytes, lowest first. */
  lemma NonceLayout(counter: nat)
    requires counter < Counters()
    ensures NonceBytes(counter)[..4] == [0, 0, 0, 0] && LittleEndian(NonceBytes(counter)[4..]) == counter
  {
    hide Pow, LowBytes;
    assert NonceBytes(counter)[4..] == LowBytes(counter, 8);
    LowBytesValue(counter, 8);
  }

  datatype Header = Header(extensionType: nat, msgType: nat, msgLength: nat)

  function ParseHeader(data: Bytes): Header
    requires |data| == HEADER_SIZE
  {
    var d: seq<nat> := data;
    Header(d[0] + 256 * d[1], d[2], d[3] + 256 * d[4] + 65536 * d[5])
  }

  function EncodeHeader(extensionType: nat, msgType: nat, msgLength: nat): (r: Bytes)
    ensures |r| == HEADER_SIZE
  {
    [extensionType % 256, extensionType / 256 % 256, msgType % 256,
     msgLength % 256, msgLength / 256 % 256, msgLength / 65536 % 256]
  }

  /** A header survives the wire unless its length needs more than 24 bits; then only the low 24 do. */
  lemma HeaderRoundTrip(extensionType: nat, msgType: nat, msgLength: nat)
    requires extensionType < 65536 && msgType < 256
    ensures ParseHeader(EncodeHeader(extensionType, msgType, msgLength))
         == Header(extensionType, msgType, msgLength % 16777216)
  {
    Low24(msgLength);
  }

  lemma Low24(x: nat)
    ensures x % 256 + 256 * (x / 256 % 256) + 65536 * (x / 65536 % 256) == x % 16777216
  {
    var q := x / 16777216;
    assert x / 65536 / 256 == q && x / 256 / 256 == x / 65536;
  }

  lemma HeaderCanonical(data: Bytes)
    requires |data| == HEADER_SIZE
    ensures var h := ParseHeader(data); EncodeHeader(h.extensionType, h.msgType, h.msgLength) == data
  {
    var d: seq<nat> := data;
    var h := ParseHeader(data);
    var high := d[4] + 256 * d[5];
    ModIs(h.extensionType, d[1], d[0], 256);
    ModIs(h.msgLength, high, d[3], 256);
    ModIs(high, d[5], d[4], 256);
    assert h.msgLength / 65536 == high / 256;
    assert EncodeHeader(h.extensionType, h.msgType, h.msgLength) == [d[0], d[1], d[2], d[3], d[4], d[5]];
  }

  /** Where a header keeps what, on the sender's side and on the receiver's. */
  lemma HeaderLayout(extensionType: nat, msgType: nat, msgLength: nat)
    requires extensionType < 65536 && msgType < 256
    ensures var r := EncodeHeader(extensionType, msgType, msgLength);
      LittleEndian(r[..2]) == extensionType && r[2] == msgType && LittleEndian(r[3..]) == msgLength % 16777216
  {
    hide EncodeHeader, LittleEndian;
    var r := EncodeHeader(extensionType, msgType, msgLength);
    HeaderRoundTrip(extensionType, msgType, msgLength);
    ParsedLayout(r);
  }

  lemma ParsedLayout(data: Bytes)
    requires |data| == HEADER_SIZE
    ensures ParseHeader(data) == Header(LittleEndian(data[..2]), data[2], LittleEndian(data[3..]))
  {
    hide LittleEndian;
    TwoBytes(data[..2]);
    TwoBytes(data[4..]);
    assert data[3..][1..] == data[4..];
    LittleEndianFirst(data[3..]);
  }

  lemma LittleEndianFirst(s: Bytes)
    ensures LittleEndian(s) == if s == [] then 0 else s[0] + 256 * LittleEndian(s[1..])
  {
  }

  lemma TwoBytes(s: Bytes)
    requires |s| == 2
    ensures LittleEndian(s) == (s[0] as nat) + 256 * s[1] as nat
  {
    LittleEndianFirst(s);
    LittleEndianFirst(s[1..]);
    LittleEndianFirst(s[1..][1..]);
  }

  type Seal = (Bytes, Bytes) -> Bytes

  type Open = (Bytes, Bytes) -> Option<Bytes>

  /** What is asked of the cipher: it adds a tag, and opens what it sealed under the same nonce. */
  ghost predicate IdealBox(seal: Seal, open: Open) {
    && (forall n, p :: |seal(n, p)| == |p| + TAG_SIZE)
    && (forall n, p :: open(n, seal(n, p)) == Some(p))
  }

  /** Opening takes the tag off. */
  ghost predicate OpenSize(open: Open) {
    forall n, c :: open(n, c).Some? ==> |open(n, c).value| + TAG_SIZE == |c|
  }

  /** What one frame puts on the wire, the send counter standing at `n`. */
  function Wire(seal: Seal, n: nat, frame: Bytes): Bytes
    requires |frame| >= HEADER_SIZE
  {
    seal(NonceBytes(n), frame[..HEADER_SIZE])
    + if |frame| == HEADER_SIZE then [] else seal(NonceBytes(After(n)), frame[HEADER_SIZE..])
  }

  /** What a frame put on the wire, read with the right nonces: the header by itself under the counter as it
      stood, the payload, if there is any, under the next one. */
  lemma WireOpens(seal: Seal, open: Open, n: nat, frame: Bytes)
    requires IdealBox(seal, open) && |frame| >= HEADER_SIZE
    ensures var w, cut := Wire(seal, n, frame), HEADER_SIZE + TAG_SIZE;
      |w| == |frame| + (if |frame| == HEADER_SIZE then TAG_SIZE else 2 * TAG_SIZE)
      && open(NonceBytes(n), w[..cut]) == Some(frame[..HEADER_SIZE])
      && (|frame| > HEADER_SIZE ==> open(NonceBytes(After(n)), w[cut..]) == Some(frame[HEADER_SIZE..]))
  {
    hide NonceBytes, After;
    var w, cut := Wire(seal, n, frame), HEADER_SIZE + TAG_SIZE;
    assert w[..cut] == seal(NonceBytes(n), frame[..HEADER_SIZE]);
    if |frame| > HEADER_SIZE {
      assert w[cut..] == seal(NonceBytes(After(n)), frame[HEADER_SIZE..]);
    }
  }

  function CounterAfter(n: nat, frame: Bytes): nat {
    if |frame| == HEADER_SIZE then After(n) else After(After(n))
  }

  datatype Received = Received(frame: Option<Bytes>, counter: nat, rest: Bytes)

  /** What a receiver with counter `n` takes from a stream that ends after `s`. */
  function RecvFrame(open: Open, n: nat, s: Bytes, max: int): Received
    requires OpenSize(open)
  {
    if |s| < HEADER_SIZE + TAG_SIZE then Received(None, n, [])
    else RecvBody(open(NonceBytes(n), s[..HEADER_SIZE + TAG_SIZE]), open, After(n), s[HEADER_SIZE + TAG_SIZE..], max)
  }

  function RecvBody(header: Option<Bytes>, open: Open, n: nat, s: Bytes, max: int): Received
    requires header.Some? ==> |header.value| == HEADER_SIZE
  {
    if header.None? then Received(None, n, s)
    else
      var len := ParseHeader(header.value).msgLength;
      if len == 0 then Received(header, n, s)
      else if len > max then Received(None, n, s)
      else if |s| < len + TAG_SIZE then Received(None, n, [])
      else
        var payload := open(NonceBytes(n), s[..len + TAG_SIZE]);
        Received(if payload.None? then None else Some(header.value + payload.value), After(n), s[len + TAG_SIZE..])
  }

  /** The length a frame claims for its payload is the length it has, and the receiver has room for it. */
  ghost predicate Deliverable(frame: Bytes, max: int) {
    && |frame| >= HEADER_SIZE
    && ParseHeader(frame[..HEADER_SIZE]).msgLength == |frame| - HEADER_SIZE
    && (|frame| > HEADER_SIZE ==> |frame| - HEADER_SIZE <= max)
  }

  /** A deliverable frame comes out as it went in, and leaves both counters at the same value. */
  lemma FrameDelivered(seal: Seal, open: Open, n: nat, frame: Bytes, tail: Bytes, max: int)
    requires IdealBox(seal, open) && OpenSize(open) && Deliverable(frame, max)
    ensures RecvFrame(open, n, Wire(seal, n, frame) + tail, max) == Received(Some(frame), CounterAfter(n, frame), tail)
  {
    hide NonceBytes, After, ParseHeader;
    var s := Wire(seal, n, frame) + tail;
    var header := seal(NonceBytes(n), frame[..HEADER_SIZE]);
    assert s[..HEADER_SIZE + TAG_SIZE] == header;
    if |frame| == HEADER_SIZE {
      assert frame[..HEADER_SIZE] == frame && s[HEADER_SIZE + TAG_SIZE..] == tail;
    } else {
      var payload := seal(NonceBytes(After(n)), frame[HEADER_SIZE..]);
      assert s[HEADER_SIZE + TAG_SIZE..] == payload + tail;
      assert (payload + tail)[..|payload|] == payload && (payload + tail)[|payload|..] == tail;
      assert frame[..HEADER_SIZE] + frame[HEADER_SIZE..] == frame;
    }
  }

  /** On its own, a frame is delivered unchanged exactly when it is deliverable. */
  lemma DeliveredIffDeliverable(seal: Seal, open: Open, n: nat, frame: Bytes, max: int)
    requires IdealBox(seal, open) && OpenSize(open) && |frame| >= HEADER_SIZE
    ensures RecvFrame(open, n, Wire(seal, n, frame), max).frame == Some(frame) <==> Deliverable(frame, max)
  {
    hide NonceBytes, After, ParseHeader;
    var s := Wire(seal, n, frame);
    if Deliverable(frame, max) {
      FrameDelivered(seal, open, n, frame, [], max);
      assert s + [] == s;
    } else {
      assert s[..HEADER_SIZE + TAG_SIZE] == seal(NonceBytes(n), frame[..HEADER_SIZE]);
    }
  }

  /** What a receive returns is what was sealed: exactly the frame whose header opens under the counter, whose payload
      has the length the header claims, fits, and opens under the next counter. */
  lemma ReceivedIsAuthentic(open: Open, n: nat, s: Bytes, max: int, frame: Bytes)
    requires OpenSize(open)
    ensures RecvFrame(open, n, s, max).frame == Some(frame) <==> Authentic(open, n, s, max, frame)
    ensures RecvFrame(open, n, s, max).frame == Some(frame) ==>
        var r := RecvFrame(open, n, s, max);
        r.counter == CounterAfter(n, frame) && r.rest == s[OnWire(frame)..]
  {
    hide NonceBytes, After, ParseHeader;
    var cut := HEADER_SIZE + TAG_SIZE;
    if |s| >= cut && open(NonceBytes(n), s[..cut]).Some? {
      var header := open(NonceBytes(n), s[..cut]).value;
      BodyIsAuthentic(header, open, n, s, max, frame);
    }
  }

  /** How many bytes a frame takes on the wire. */
  function OnWire(frame: Bytes): nat {
    |frame| + if |frame| == HEADER_SIZE then TAG_SIZE else 2 * TAG_SIZE
  }

  ghost predicate Authentic(open: Open, n: nat, s: Bytes, max: int, frame: Bytes) {
    var cut := HEADER_SIZE + TAG_SIZE;
    |frame| >= HEADER_SIZE && |s| >= OnWire(frame)
    && open(NonceBytes(n), s[..cut]) == Some(frame[..HEADER_SIZE])
    && ParseHeader(frame[..HEADER_SIZE]).msgLength == |frame| - HEADER_SIZE
    && (|frame| == HEADER_SIZE
        || (|frame| - HEADER_SIZE <= max
            && open(NonceBytes(After(n)), s[cut..OnWire(frame)]) == Some(frame[HEADER_SIZE..])))
  }

  lemma BodyIsAuthentic(header: Bytes, open: Open, n: nat, s: Bytes, max: int, frame: Bytes)
    requires OpenSize(open) && |header| == HEADER_SIZE && |s| >= HEADER_SIZE + TAG_SIZE
    requires open(NonceBytes(n), s[..HEADER_SIZE + TAG_SIZE]) == Some(header)
    ensures var r := RecvBody(Some(header), open, After(n), s[HEADER_SIZE + TAG_SIZE..], max);
      (r.frame == Some(frame) <==> Authentic(open, n, s, max, frame))
      && (r.frame == Some(frame) ==> r.counter == CounterAfter(n, frame) && r.rest == s[OnWire(frame)..])
  {
    hide NonceBytes, After, ParseHeader;
    var cut := HEADER_SIZE + TAG_SIZE;
    var rest := s[cut..];
    var len := ParseHeader(header).msgLength;
    if 0 < len <= max && len + TAG_SIZE <= |rest| {
      assert rest[..len + TAG_SIZE] == s[cut..cut + len + TAG_SIZE];
      assert rest[len + TAG_SIZE..] == s[cut + len + TAG_SIZE..];
      var payload := open(NonceBytes(After(n)), rest[..len + TAG_SIZE]);
      if payload.Some? {
        assert (header + payload.value)[..HEADER_SIZE] == header;
        assert (header + payload.value)[HEADER_SIZE..] == payload.value;
      }
    }
    if |frame| >= HEADER_SIZE {
      assert frame == frame[..HEADER_SIZE] + frame[HEADER_SIZE..];
      assert |frame| == HEADER_SIZE ==> frame == frame[..HEADER_SIZE];
    }
  }

  /** A receive that fails has used the counter once for every sealed part it took whole, and has taken nothing more
      unless the stream ended. */
  lemma FailedReceive(open: Open, n: nat, s: Bytes, max: int)
    requires OpenSize(open) && RecvFrame(open, n, s, max).frame == None
    ensures var r, cut := RecvFrame(open, n, s, max), HEADER_SIZE + TAG_SIZE;
      || (r == Received(None, n, []) && |s| < cut)
      || (r == Received(None, After(n), s[cut..]) && cut <= |s|)
      || (r == Received(None, After(n), []) && cut <= |s|)
      || (r.counter == After(After(n)) && |r.rest| + TAG_SIZE < |s| - cut && r.rest == s[|s| - |r.rest|..])
  {
    hide NonceBytes, After, ParseHeader;
    var cut := HEADER_SIZE + TAG_SIZE;
    if |s| >= cut && open(NonceBytes(n), s[..cut]).Some? {
      var len := ParseHeader(open(NonceBytes(n), s[..cut]).value).msgLength;
      var rest := s[cut..];
      if 0 < len <= max && len + TAG_SIZE <= |rest| {
        assert rest[len + TAG_SIZE..] == s[cut + len + TAG_SIZE..];
      }
    }
  }

  ghost predicate Framed(frames: seq<Bytes>) {
    forall f <- frames :: |f| >= HEADER_SIZE
  }

  ghost predicate AllDeliverable(frames: seq<Bytes>, max: int) {
    forall f <- frames :: Deliverable(f, max)
  }

  lemma FirstDeliverable(frames: seq<Bytes>, max: int)
    requires AllDeliverable(frames, max) && frames != []
    ensures Deliverable(frames[0], max) && AllDeliverable(frames[1..], max)
    ensures Framed(frames[1..]) && |frames[0]| >= HEADER_SIZE
  {
  }

  function WireAll(seal: Seal, n: nat, frames: seq<Bytes>): Bytes
    requires Framed(frames)
    decreases frames
  {
    if frames == [] then []
    else Wire(seal, n, frames[0]) + WireAll(seal, CounterAfter(n, frames[0]), frames[1..])
  }

  function CounterAfterAll(n: nat, frames: seq<Bytes>): nat
    decreases frames
  {
    if frames == [] then n else CounterAfterAll(CounterAfter(n, frames[0]), frames[1..])
  }

  datatype Delivery = Delivery(frames: seq<Bytes>, counter: nat, rest: Bytes)

  /** `k` successive receives, each of which must succeed. */
  function RecvAll(open: Open, n: nat, s: Bytes, max: int, k: nat): Option<Delivery>
    requires OpenSize(open)
    decreases k
  {
    if k == 0 then Some(Delivery([], n, s))
    else
      var r := RecvFrame(open, n, s, max);
      if r.frame.None? then None
      else
        var d := RecvAll(open, r.counter, r.rest, max, k - 1);
        if d.None? then None else Some(d.value.(frames := [r.frame.value] + d.value.frames))
  }

  /** Any frames sent one after the other are received one after the other, unchanged, with the two
      counters equal after every one of them. */
  lemma {:induction false} FramesDelivered(seal: Seal, open: Open, n: nat, frames: seq<Bytes>, tail: Bytes, max: int)
    requires IdealBox(seal, open) && OpenSize(open) && Framed(frames) && AllDeliverable(frames, max)
    ensures RecvAll(open, n, WireAll(seal, n, frames) + tail, max, |frames|)
         == Some(Delivery(frames, CounterAfterAll(n, frames), tail))
    decreases frames
  {
    hide IdealBox, OpenSize, Framed, AllDeliverable, Deliverable, Wire, RecvFrame, CounterAfter;
    if frames == [] {
      assert [] + tail == tail;
    } else {
      var f, fs := frames[0], frames[1..];
      FirstDeliverable(frames, max);
      var later := WireAll(seal, CounterAfter(n, f), fs) + tail;
      assert WireAll(seal, n, frames) + tail == Wire(seal, n, f) + later;
      FrameDelivered(seal, open, n, f, later, max);
      FramesDelivered(seal, open, CounterAfter(n, f), fs, tail, max);
      assert [f] + fs == frames;
    }
  }
}
