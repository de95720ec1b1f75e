/** The receive buffer of the Stratum V1 client. It persists between calls, grows in steps, and is shifted
    down when a line has been taken off its front. */
module StratumReceiver {
  import opened Wrappers
  import opened StratumLines

  const BUFFER_SIZE: nat := 1024
  const BUFFER_LIMIT: nat := MAX_LINE + 2

  datatype Chance = Chunk(max: nat) | Timeout | Fault

  datatype ReadResult = Data(bytes: string) | Nothing | Failed

  /** A socket: the bytes it will still deliver, and how the coming reads go. A chunk hands over at most so many
      bytes; a stream that has run dry reports that the connection is closed. */
  class Transport {
    var pending: string
    var script: seq<Chance>

    constructor (pending: string, script: seq<Chance>)
      ensures this.pending == pending && this.script == script
    {
      this.pending, this.script := pending, script;
    }

    ghost predicate Faultless()
      reads this
    {
      Fault !in script
    }

    /** `esp_transport_read`, which is never asked for nothing. */
    method Read(len: nat) returns (r: ReadResult)
      requires len > 0
      modifies this
      ensures r.Data? ==> 0 < |r.bytes| <= len && old(pending) == r.bytes + pending
      ensures !r.Data? ==> pending == old(pending)
      ensures |script| <= |old(script)| && (r.Nothing? ==> |script| < |old(script)|)
      ensures old(Faultless()) ==> Faultless() && (r.Failed? ==> pending == "")
    {
      var chance := Chunk(len);
      if script != [] {
        chance, script := script[0], script[1..];
      }
      if chance.Timeout? {
        return Nothing;
      }
      if chance.Fault? || pending == "" {
        return Failed;
      }
      var n := if |pending| < len then |pending| else len;
      if 0 < chance.max < n {
        n := chance.max;
      }
      r := Data(pending[..n]);
      pending := pending[n..];
    }
  }

  ghost predicate NulFree(s: string) {
    '\0' !in s
  }

  /** `memchr`: the newline among the first `n` bytes, or `n`. */
  method FindNewline(buffer: array<char>, n: nat) returns (i: nat)
    requires n <= buffer.Length
    ensures i == NewlineAt(buffer[..n])
  {
    i := 0;
    while i < n && buffer[i] != '\n'
      invariant i <= n && forall j :: 0 <= j < i ==> buffer[j] != '\n'
    {
      i := i + 1;
    }
    NewlineAtIs(buffer[..n], i);
  }

  class Receiver {
    var buffer: array?<char>
    var len: nat

    /** Between calls the buffer has room for the terminator and holds no more than a line's worth. */
    ghost predicate Valid()
      reads this, buffer
    {
      if buffer == null then len == 0 else Sized() && len <= MAX_LINE
    }

    ghost predicate Sized()
      reads this, buffer
    {
      buffer != null && BUFFER_SIZE <= buffer.Length <= BUFFER_LIMIT && len < buffer.Length && buffer[len] == '\0'
    }

    ghost function Contents(): string
      requires buffer != null ==> len <= buffer.Length
      reads this, buffer
    {
      if buffer == null then "" else buffer[..len]
    }

    /** Before the first use there is no buffer. */
    constructor ()
      ensures Valid() && Contents() == "" && buffer == null
    {
      buffer, len := null, 0;
    }

    /** `STRATUM_V1_initialize_buffer`. */
    method InitializeBuffer()
      modifies this
      ensures Valid() && Contents() == "" && buffer != null && fresh(buffer)
    {
      buffer := new char[BUFFER_SIZE];
      len := 0;
      buffer[0] := '\0';
    }

    /** `ensure_json_buffer_capacity`: grows in steps of `BUFFER_SIZE` up to the limit, keeping the contents. */
    method EnsureCapacity(required: nat) returns (ok: bool)
      requires Sized()
      modifies this
      ensures ok <==> required <= BUFFER_LIMIT
      ensures len == old(len) && Sized() && Contents() == old(Contents())
      ensures ok ==> required <= buffer.Length
      ensures buffer == old(buffer) || fresh(buffer)
    {
      if required > BUFFER_LIMIT {
        return false;
      }
      if required <= buffer.Length {
        return true;
      }
      var newSize := buffer.Length;
      while newSize < required && newSize < BUFFER_LIMIT
        invariant buffer.Length <= newSize <= BUFFER_LIMIT
        decreases BUFFER_LIMIT - newSize
      {
        newSize := if newSize + BUFFER_SIZE < BUFFER_LIMIT then newSize + BUFFER_SIZE else BUFFER_LIMIT;
      }
      var grown := new char[newSize];
      forall i | 0 <= i < buffer.Length {
        grown[i] := buffer[i];
      }
      assert grown[..len] == buffer[..len];
      buffer := grown;
      return true;
    }

    method Drop()
      requires Sized()
      modifies this, buffer
      ensures Valid() && Contents() == "" && buffer == old(buffer)
    {
      len := 0;
      buffer[0] := '\0';
    }

    /** A chunk goes behind what is there. */
    method Append(bytes: string)
      requires Sized() && len + |bytes| + 1 <= buffer.Length
      modifies this, buffer
      ensures Sized() && buffer == old(buffer) && Contents() == old(Contents()) + bytes
    {
      forall i | 0 <= i < |bytes| {
        buffer[len + i] := bytes[i];
      }
      len := len + |bytes|;
      buffer[len] := '\0';
      assert buffer[..len] == old(buffer[..len]) + bytes;
    }

    /** The line in front of the newline at `i` is copied out and the rest moves down. */
    method Extract(i: nat) returns (line: string)
      requires Sized() && i < len <= MAX_LINE + 1
      modifies this, buffer
      ensures Valid() && buffer == old(buffer)
      ensures line == old(Contents())[..i] && Contents() == old(Contents())[i + 1..]
    {
      line := buffer[..i];
      var remaining := len - i - 1;
      forall j | 0 <= j < remaining {
        buffer[j] := buffer[i + 1 + j];
      }
      len := remaining;
      buffer[len] := '\0';
      assert buffer[..len] == old(buffer[..len])[i + 1..];
    }

    /** One turn of the receive loop: a read of at least one byte and at most what a line may still need.
        It gives up, emptying the buffer, on a failed read, a NUL or an over-long line. */
    method ReceiveMore(t: Transport) returns (ok: bool)
      requires Sized() && len <= MAX_LINE && NewlineAt(Contents()) == len
      modifies this, buffer, t
      ensures buffer != null && (buffer == old(buffer) || fresh(buffer))
      ensures old(t.Faultless()) ==> t.Faultless()
      ensures ok ==> Sized() && len <= MAX_LINE + 1 && Contents() + t.pending == old(Contents() + t.pending)
      ensures ok ==> (NewlineAt(Contents()) == len ==> len <= MAX_LINE)
      ensures ok ==> |t.pending| + |t.script| < |old(t.pending)| + |old(t.script)|
      ensures !ok ==> Valid() && Contents() == ""
      ensures !ok && old(t.Faultless() && NulFree(Contents() + t.pending)) ==>
          NoLine(old(Contents() + t.pending), t.pending)
      ensures !ok ==> EndsWith(old(Contents() + t.pending), t.pending)
      ensures !ok && NulFree(old(Contents() + t.pending)) ==> GivenUp(old(Contents() + t.pending), t.pending)
    {
      hide NewlineAt, NoLine, EndsWith, GivenUp;
      ghost var held, stream := Contents(), Contents() + t.pending;
      var size := if BUFFER_SIZE < MAX_LINE + 1 - len then BUFFER_SIZE else MAX_LINE + 1 - len;
      var r := t.Read(size);
      if r.Failed? {
        NothingReceived(held, t.pending, stream);
        Ending(held, t.pending, stream);
        Drop();
        return false;
      }
      if r.Nothing? {
        return true;
      }
      if '\0' in r.bytes {
        assert '\0' in stream;
        Ending(held + r.bytes, t.pending, stream);
        Drop();
        return false;
      }
      ghost var pending := t.pending;
      var fits := EnsureCapacity(len + |r.bytes| + 1);
      assert Contents() == held;
      Append(r.bytes);
      held := held + r.bytes;
      assert held + pending == stream;
      var newline := FindNewline(buffer, len);
      if newline == len && len > MAX_LINE {
        NothingReceived(held, pending, stream);
        Ending(held, pending, stream);
        Drop();
        return false;
      }
      return true;
    }

    /** `STRATUM_V1_receive_jsonrpc_line`. A returned line is the one the stream has next, however the bytes
        arrived; and unless a read fails or a NUL turns up, no line is returned only when the stream has none. Even
        when reads fail, what is given up of a stream without NULs never holds a whole line. */
    method ReceiveLine(t: Transport) returns (line: Option<string>)
      requires Valid()
      modifies this, buffer, t
      ensures Valid() && (buffer == old(buffer) || fresh(buffer))
      ensures line.Some? ==> Receive(old(Contents() + t.pending)) == (Line(line.value), Contents() + t.pending)
      ensures line.None? ==> Contents() == ""
      ensures line.None? && old(t.Faultless() && NulFree(Contents() + t.pending)) ==>
          NoLine(old(Contents() + t.pending), t.pending)
      ensures line.None? ==> EndsWith(old(Contents() + t.pending), t.pending)
      ensures line.None? && NulFree(old(Contents() + t.pending)) ==> GivenUp(old(Contents() + t.pending), t.pending)
    {
      hide Receive, NewlineAt, NoLine, EndsWith, GivenUp;
      ghost var stream := Contents() + t.pending;
      if buffer == null {
        InitializeBuffer();
      }
      var newline := FindNewline(buffer, len);
      while newline == len
        invariant Sized() && len <= MAX_LINE + 1 && (newline == len ==> len <= MAX_LINE)
        invariant buffer == old(buffer) || fresh(buffer)
        invariant newline == NewlineAt(Contents()) && Contents() + t.pending == stream
        invariant old(t.Faultless()) ==> t.Faultless()
        decreases |t.pending| + |t.script|
      {
        var ok := ReceiveMore(t);
        if !ok {
          return None;
        }
        newline := FindNewline(buffer, len);
      }
      LineReceived(Contents(), t.pending, stream);
      var text := Extract(newline);
      line := Some(text);
    }
  }

  /** The next thing on `stream` is not a line, and taking it leaves `rest`. */
  ghost predicate NoLine(stream: string, rest: string) {
    var r := Receive(stream);
    !r.0.Line? && r.1 == rest
  }

  /** `rest` is what is left of `stream` after some bytes from its front. */
  ghost predicate EndsWith(stream: string, rest: string) {
    |rest| <= |stream| && stream[|stream| - |rest|..] == rest
  }

  /** The bytes before `rest` hold no newline. */
  ghost predicate GivenUp(stream: string, rest: string) {
    EndsWith(stream, rest) && OneLine(stream[..|stream| - |rest|])
  }

  lemma Ending(held: string, pending: string, stream: string)
    requires stream == held + pending
    ensures EndsWith(stream, pending) && (NewlineAt(held) == |held| ==> GivenUp(stream, pending))
  {
    hide NewlineAt;
    assert stream[|held|..] == pending && stream[..|held|] == held;
  }

  lemma LineReceived(held: string, pending: string, stream: string)
    requires stream == held + pending && NewlineAt(held) < |held| <= MAX_LINE + 1
    ensures Receive(stream) == (Line(held[..NewlineAt(held)]), held[NewlineAt(held) + 1..] + pending)
  {
    hide Receive, NewlineAt;
    var i := NewlineAt(held);
    var l, r := held[..i], held[i + 1..];
    CutAt(held, i, pending);
    ShortLine(l, r + pending);
  }

  lemma CutAt(held: string, i: nat, pending: string)
    requires i < |held| && held[i] == '\n'
    ensures held + pending == held[..i] + ("\n" + (held[i + 1..] + pending))
  {
    var l, r := held[..i], held[i + 1..];
    assert held == l + "\n" + r;
    assert l + "\n" + r + pending == l + ("\n" + (r + pending));
  }

  /** A held piece without a newline that fills the buffer, or is all there is, holds no line. */
  lemma NothingReceived(held: string, pending: string, stream: string)
    requires stream == held + pending && NewlineAt(held) == |held| <= MAX_LINE + 1
    ensures |held| == MAX_LINE + 1 || pending == "" ==> NoLine(stream, pending)
  {
    if |held| == MAX_LINE + 1 {
      LongLine(held, pending);
    } else if pending == "" {
      assert stream == held;
    }
  }
}
