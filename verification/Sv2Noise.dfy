/** The transport phase of a Noise session: two counters, one for each direction, and the sockets under them. */
module Sv2Noise {
  import opened Wrappers
  import opened Numerals
  import opened Sv2Frames

  /** The receiving end of a socket. `script` says how: a positive entry is a read that hands over at most
      so many bytes, a zero one a read that times out or fails. */
  class Source {
    var pending: Bytes
    var script: seq<nat>

    constructor (pending: Bytes, script: seq<nat>)
      ensures this.pending == pending && this.script == script
    {
      this.pending, this.script := pending, script;
    }

    /** No read fails while there are bytes to hand over. */
    ghost predicate Steady()
      reads this
    {
      0 !in script
    }

    /** `esp_transport_read`; an empty result is a return value of zero or less. */
    method Read(len: nat) returns (data: Bytes)
      requires len > 0
      modifies this
      ensures |data| <= len && old(pending) == data + pending
      ensures old(Steady()) ==> Steady() && (data == [] ==> old(pending) == [])
    {
      var n := if |pending| < len then |pending| else len;
      if script != [] {
        if script[0] < n {
          n := script[0];
        }
        script := script[1..];
      }
      data := pending[..n];
      pending := pending[n..];
    }
  }

  /** The sending end of a socket. */
  class Sink {
    var sent: Bytes

    /** `stratum_socket_send_all`: everything, or, when the socket fails, some part from the front. */
    method SendAll(data: Bytes, ok: bool, partial: nat)
      modifies this
      ensures ok ==> sent == old(sent) + data
      ensures old(sent) <= sent <= old(sent) + data
    {
      if ok {
        sent := sent + data;
      } else if partial <= |data| {
        sent := sent + data[..partial];
        assert data == data[..partial] + data[partial..];
      }
    }
  }

  /** `build_nonce`. */
  method BuildNonce(counter: nat, nonce: array<Byte>)
    requires nonce.Length == 12
    modifies nonce
    ensures nonce[..] == NonceBytes(counter)
  {
    nonce[0], nonce[1], nonce[2], nonce[3] := 0, 0, 0, 0;
    var i := 0;
    while i < 8
      invariant 0 <= i <= 8
      invariant forall j :: 0 <= j < 4 ==> nonce[j] == 0
      invariant forall j :: 0 <= j < i ==> nonce[4 + j] == LowBytes(counter, 8)[j]
    {
      LeByte(counter, 8, i);
      nonce[4 + i] := Shr(counter, i) % 256;
      i := i + 1;
    }
    assert forall j :: 0 <= j < 12 ==> nonce[j] == NonceBytes(counter)[j];
  }

  /** `counter >> (i * 8)`. */
  function Shr(counter: nat, i: nat): nat
    decreases i
  {
    if i == 0 then counter else Shr(counter / 256, i - 1)
  }

  lemma {:induction false} LeByte(counter: nat, k: nat, i: nat)
    requires i < k
    ensures LowBytes(counter, k)[i] == Shr(counter, i) % 256
    decreases i
  {
    if i == 0 {
    } else {
      LeByte(counter / 256, k - 1, i - 1);
    }
  }

  /** `noise_recv_exact`: all `len` bytes, gathered over as many reads as it takes, or nothing. */
  method RecvExact(source: Source, len: nat) returns (data: Option<Bytes>)
    modifies source
    ensures data.Some? ==> |data.value| == len && old(source.pending) == data.value + source.pending
    ensures old(source.Steady()) ==> source.Steady()
    ensures old(source.Steady()) && data.None? ==> |old(source.pending)| < len && source.pending == []
  {
    var received: Bytes := [];
    while |received| < len
      invariant |received| <= len && old(source.pending) == received + source.pending
      invariant old(source.Steady()) ==> source.Steady()
      decreases len - |received|
    {
      var r := source.Read(len - |received|);
      if r == [] {
        return None;
      }
      received := received + r;
    }
    data := Some(received);
  }

  class Session {
    const seal: Seal
    const open: Open
    var handshakeComplete: bool
    var sendNonce: nat
    var recvNonce: nat
    /** Every nonce ever passed to an encryption with the send key, whatever became of it. */
    ghost var used: seq<Bytes>

    ghost predicate Valid()
      reads this
    {
      && sendNonce == |used| % Counters()
      && recvNonce < Counters()
      && forall i :: 0 <= i < |used| ==> used[i] == NonceBytes(i % Counters())
    }

    /** The counters as the handshake leaves them. */
    constructor (seal: Seal, open: Open)
      ensures Valid() && handshakeComplete && used == [] && this.seal == seal && this.open == open
      ensures sendNonce == recvNonce == 0
    {
      this.seal, this.open := seal, open;
      handshakeComplete, sendNonce, recvNonce, used := true, 0, 0, [];
      new;
      ModIs(0, 0, 0, Counters());
    }

    /** `noise_encrypt(..., ctx->send_nonce++, ...)`: the counter moves on whether or not the cipher succeeds. */
    method Encrypt(plaintext: Bytes, cipherOk: bool) returns (out: Option<Bytes>)
      requires Valid()
      modifies this
      ensures Valid() && handshakeComplete == old(handshakeComplete) && recvNonce == old(recvNonce)
      ensures sendNonce == After(old(sendNonce)) && used == old(used) + [NonceBytes(old(sendNonce))]
      ensures out == if cipherOk then Some(seal(NonceBytes(old(sendNonce)), plaintext)) else None
    {
      hide NonceBytes, Counters;
      var nonce := new Byte[12];
      BuildNonce(sendNonce, nonce);
      out := if cipherOk then Some(seal(nonce[..], plaintext)) else None;
      used := used + [NonceBytes(sendNonce)];
      NextMod(|used| - 1, sendNonce, Counters());
      sendNonce := (sendNonce + 1) % Counters();
    }

    /** `sv2_noise_send`. */
    method Send(sink: Sink, frame: Bytes, headerOk: bool, payloadOk: bool, socketOk: bool, partial: nat)
      returns (ok: bool)
      requires Valid()
      modifies this, sink
      ensures Valid() && recvNonce == old(recvNonce) && handshakeComplete == old(handshakeComplete)
      ensures ok <==> old(handshakeComplete) && |frame| >= HEADER_SIZE && headerOk
                      && (|frame| == HEADER_SIZE || payloadOk) && socketOk
      ensures ok ==> sink.sent == old(sink.sent) + Wire(seal, old(sendNonce), frame)
                     && sendNonce == CounterAfter(old(sendNonce), frame)
      ensures |frame| >= HEADER_SIZE ==>
          old(sink.sent) <= sink.sent <= old(sink.sent) + Wire(seal, old(sendNonce), frame)
      ensures old(used) <= used
      ensures !old(handshakeComplete) || |frame| < HEADER_SIZE ==> used == old(used) && sink.sent == old(sink.sent)
      ensures old(handshakeComplete) && |frame| >= HEADER_SIZE ==>
          |used| == |old(used)| + if |frame| == HEADER_SIZE || !headerOk then 1 else 2
    {
      hide NonceBytes, After, Valid;
      if !handshakeComplete || |frame| < HEADER_SIZE {
        return false;
      }
      var header := Encrypt(frame[..HEADER_SIZE], headerOk);
      if header.None? {
        return false;
      }
      if |frame| == HEADER_SIZE {
        sink.SendAll(header.value, socketOk, partial);
        assert header.value == Wire(seal, old(sendNonce), frame);
        return socketOk;
      }
      var payload := Encrypt(frame[HEADER_SIZE..], payloadOk);
      if payload.None? {
        return false;
      }
      sink.SendAll(header.value + payload.value, socketOk, partial);
      return socketOk;
    }

    /** `noise_decrypt(..., ctx->recv_nonce++, ...)`. */
    method Decrypt(ciphertext: Bytes) returns (out: Option<Bytes>)
      requires Valid()
      modifies this
      ensures Valid() && handshakeComplete == old(handshakeComplete) && used == old(used) && sendNonce == old(sendNonce)
      ensures recvNonce == After(old(recvNonce)) && out == open(NonceBytes(old(recvNonce)), ciphertext)
    {
      hide NonceBytes, Counters;
      var nonce := new Byte[12];
      BuildNonce(recvNonce, nonce);
      out := open(nonce[..], ciphertext);
      recvNonce := (recvNonce + 1) % Counters();
      DivId(old(recvNonce) + 1, Counters());
    }

    /** `sv2_noise_recv`: whatever the socket's chunking, what the receiver makes of the stream is a function
        of the stream, and every success agrees with it even when reads may fail. */
    method Recv(source: Source, max: int) returns (frame: Option<Bytes>)
      requires Valid() && OpenSize(open)
      modifies this, source
      ensures Valid() && handshakeComplete == old(handshakeComplete) && used == old(used) && sendNonce == old(sendNonce)
      ensures !old(handshakeComplete) ==>
          frame == None && recvNonce == old(recvNonce) && source.pending == old(source.pending)
      ensures old(handshakeComplete) && (frame.Some? || old(source.Steady())) ==>
          RecvFrame(open, old(recvNonce), old(source.pending), max) == Received(frame, recvNonce, source.pending)
      ensures old(source.Steady()) ==> source.Steady()
    {
      hide NonceBytes, After, Valid, ParseHeader;
      if !handshakeComplete {
        return None;
      }
      ghost var s := source.pending;
      var sealedHeader := RecvExact(source, HEADER_SIZE + TAG_SIZE);
      if sealedHeader.None? {
        return None;
      }
      assert sealedHeader.value == s[..HEADER_SIZE + TAG_SIZE] && source.pending == s[HEADER_SIZE + TAG_SIZE..];
      var header := Decrypt(sealedHeader.value);
      if header.None? {
        return None;
      }
      var len := ParseHeader(header.value).msgLength;
      if len == 0 {
        return header;
      }
      if len > max {
        return None;
      }
      ghost var t := source.pending;
      var sealedPayload := RecvExact(source, len + TAG_SIZE);
      if sealedPayload.None? {
        return None;
      }
      assert sealedPayload.value == t[..len + TAG_SIZE] && source.pending == t[len + TAG_SIZE..];
      var payload := Decrypt(sealedPayload.value);
      if payload.None? {
        return None;
      }
      frame := Some(header.value + payload.value);
    }

    /** No nonce was used for two encryptions, failed sends included, as long as the counter has not wrapped;
        the first use after that repeats one. */
    lemma NoNonceReused()
      requires Valid()
      ensures (forall i, j :: 0 <= i < j < |used| ==> used[i] != used[j]) <==> |used| <= Counters()
    {
      hide Counters, NonceBytes;
      if |used| <= Counters() {
        forall i, j | 0 <= i < j < |used| ensures used[i] != used[j] {
          ModIs(i, 0, i, Counters());
          ModIs(j, 0, j, Counters());
          NonceInjective(i, j);
        }
      } else {
        ModIs(0, 0, 0, Counters());
        ModIs(Counters(), 1, 0, Counters());
        assert used[0] == used[Counters()];
      }
    }
  }
}
