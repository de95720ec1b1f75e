/** Jobs on their way to the chips and back: the encoder rolls the version into the midstates it hashes,
    the decoder finds the job in the slot store and rolls the same version again. */
module JobSlots {
  import opened Wrappers
  import opened Numerals
  import opened Bits
  import opened VersionRolling
  import opened JobStore

  const NUM_MIDSTATES: nat := 4
  const MIDSTATE_BITS: nat := 2
  const TX_SLOT_SHIFT: nat := 2

  type Word = x: nat | x < Two(WORD) witness 0

  type Bytes32 = s: seq<nat> | |s| == 32 witness seq(32, _ => 0)

  datatype Job = Job(version: Word, versionMask: Word, prevHash: Bytes32, merkleRoot: Bytes32,
                     ntime: Word, nbits: Word, startingNonce: Word, metadata: seq<nat>)

  function ZeroJob(): Job {
    Job(0, 0, seq(32, _ => 0), seq(32, _ => 0), 0, 0, 0, [])
  }

  /** The 80-byte block header a chip hashes. */
  function Header(job: Job, nonce: nat, version: nat): (h: seq<nat>)
    ensures |h| == 80
  {
    LowBytes(version, 4) + job.prevHash + job.merkleRoot
    + LowBytes(job.ntime, 4) + LowBytes(job.nbits, 4) + LowBytes(nonce, 4)
  }

  /** Where a header keeps what; and the chip, which gets the hash of the first 64 bytes, is sent the rest of it. */
  lemma HeaderLayout(job: Job, nonce: nat, version: nat)
    ensures var h := Header(job, nonce, version);
      h[..4] == LowBytes(version, 4) && h[4..36] == job.prevHash && h[36..68] == job.merkleRoot
      && h[68..72] == LowBytes(job.ntime, 4) && h[72..76] == LowBytes(job.nbits, 4) && h[76..] == LowBytes(nonce, 4)
      && h[..64] + job.merkleRoot[28..] + LowBytes(job.ntime, 4) + LowBytes(job.nbits, 4) + LowBytes(nonce, 4) == h
  {
    hide Header;
    HeaderFields(job, nonce, version);
    var h := Header(job, nonce, version);
    assert job.merkleRoot[28..] == h[64..68];
    assert h == h[..64] + h[64..68] + h[68..72] + h[72..76] + h[76..];
  }

  lemma HeaderFields(job: Job, nonce: nat, version: nat)
    ensures var h := Header(job, nonce, version);
      h[..4] == LowBytes(version, 4) && h[4..36] == job.prevHash && h[36..68] == job.merkleRoot
      && h[68..72] == LowBytes(job.ntime, 4) && h[72..76] == LowBytes(job.nbits, 4) && h[76..] == LowBytes(nonce, 4)
  {
    hide LowBytes;
  }

  /** The midstate the chip is told to use for `version`; `hash` is the SHA-256 compression of one block
      with its words reversed. */
  function Midstate(hash: seq<nat> -> Bytes32, job: Job, version: nat): Bytes32 {
    hash(Header(job, job.startingNonce, version)[..64])
  }

  /** It serves every nonce the chip will try. */
  lemma MidstateServesNonces(hash: seq<nat> -> Bytes32, job: Job, nonce: nat, version: nat)
    ensures Midstate(hash, job, version) == hash(Header(job, nonce, version)[..64])
  {
    hide LowBytes;
    assert Header(job, nonce, version)[..64] == Header(job, job.startingNonce, version)[..64];
  }

  function EncodeWireSlot(slot: nat, shift: nat): nat {
    Shl(slot, shift) % 256
  }

  function DecodeWireSlot(wire: nat, shift: nat): nat {
    DivId(wire, Two(shift));
    wire / Two(shift)
  }

  function DecodeSubId(wire: nat, shift: nat): nat {
    And(wire, Two(shift) - 1)
  }

  /** How many midstates a packet carries. */
  function Emitted(mask: nat, softwareMidstates: nat): nat {
    if mask == 0 then (if softwareMidstates == 0 then 0 else 1)
    else if softwareMidstates < NUM_MIDSTATES then softwareMidstates
    else NUM_MIDSTATES
  }

  /** As many midstates as asked for and as fit, but no second one when there is nothing to roll. */
  lemma EmittedIsMost(mask: nat, softwareMidstates: nat, k: nat)
    ensures k <= Emitted(mask, softwareMidstates)
       <==> k <= softwareMidstates && k <= NUM_MIDSTATES && (mask == 0 ==> k <= 1)
  {
  }

  /** The versions of a packet all differ exactly when the mask has room for that many. */
  lemma VersionsDiffer(job: Job, softwareMidstates: nat)
    ensures var n := Emitted(job.versionMask, softwareMidstates);
      (forall i, j :: 0 <= i < j < n ==>
        Rolled(job.version, job.versionMask, i) != Rolled(job.version, job.versionMask, j))
      <==> n <= Period(job.versionMask)
  {
    hide Rolled, Period, Emitted, SameOutside;
    var p, n := Period(job.versionMask), Emitted(job.versionMask, softwareMidstates);
    RollingVisitsOnce(job.version, job.versionMask, job.version);
    RollingReturns(job.version, job.versionMask);
    if p < n {
      RolledStart(job.version, job.versionMask);
      assert Rolled(job.version, job.versionMask, 0) == Rolled(job.version, job.versionMask, p);
    }
  }

  /** The first `n` midstates are for the job's version rolled 0, 1, ..., n - 1 times. */
  ghost predicate Hashed(midstates: seq<Bytes32>, n: nat, hash: seq<nat> -> Bytes32, job: Job) {
    n <= |midstates|
    && forall i :: 0 <= i < n ==> midstates[i] == Midstate(hash, job, Rolled(job.version, job.versionMask, i))
  }

  ghost predicate ZeroFrom(midstates: seq<Bytes32>, n: nat) {
    forall i :: n <= i < |midstates| ==> midstates[i] == seq(32, _ => 0)
  }

  lemma HashedNone(midstates: seq<Bytes32>, hash: seq<nat> -> Bytes32, job: Job)
    ensures Hashed(midstates, 0, hash, job)
  {
  }

  lemma HashedNext(midstates: seq<Bytes32>, n: nat, hash: seq<nat> -> Bytes32, job: Job)
    requires n < |midstates| && Hashed(midstates, n, hash, job) && ZeroFrom(midstates, n)
    ensures var next := midstates[n := Midstate(hash, job, Rolled(job.version, job.versionMask, n))];
      Hashed(next, n + 1, hash, job) && ZeroFrom(next, n + 1)
  {
    hide Midstate, Rolled;
  }

  lemma RolledStart(value: Word, mask: Word)
    ensures Rolled(value, mask, 0) == value
  {
  }

  lemma RolledNext(value: Word, mask: Word, k: nat)
    ensures Rolled(value, mask, k + 1) == IncrementBitmask(Rolled(value, mask, k), mask)
  {
    hide IncrementBitmask;
  }

  class Packet {
    var chipSlot: nat
    var numMidstates: nat
    var startingNonce: seq<nat>
    var nbits: seq<nat>
    var ntime: seq<nat>
    var merkle4: seq<nat>
    const midstates: array<Bytes32>

    constructor ()
      ensures fresh(midstates) && midstates.Length == NUM_MIDSTATES
    {
      midstates := new Bytes32[NUM_MIDSTATES];
    }

    /** The `memset` over the midstates. */
    method Clear()
      requires midstates.Length == NUM_MIDSTATES
      modifies this`numMidstates, midstates
      ensures numMidstates == 0 && ZeroFrom(midstates[..], 0)
    {
      for k := 0 to NUM_MIDSTATES
        invariant forall j :: 0 <= j < k ==> midstates[j] == seq(32, _ => 0)
      {
        midstates[k] := seq(32, _ => 0);
      }
      numMidstates := 0;
    }

    /** `bm1397_encode_job_packet`: each midstate but the first is for the version one roll further on,
        unless there is nothing to roll. */
    method Encode(job: Job, slot: nat, softwareMidstates: nat, hash: seq<nat> -> Bytes32)
      requires midstates.Length == NUM_MIDSTATES
      modifies this, midstates
      ensures chipSlot == slot && startingNonce == LowBytes(job.startingNonce, 4)
      ensures nbits == LowBytes(job.nbits, 4) && ntime == LowBytes(job.ntime, 4) && merkle4 == job.merkleRoot[28..]
      ensures numMidstates == Emitted(job.versionMask, softwareMidstates)
      ensures Hashed(midstates[..], numMidstates, hash, job)
      ensures ZeroFrom(midstates[..], numMidstates)
    {
      hide Midstate, LowBytes, Rolled, Hashed, ZeroFrom;
      Clear();
      HashedNone(midstates[..], hash, job);
      chipSlot := slot;
      startingNonce, nbits, ntime := LowBytes(job.startingNonce, 4), LowBytes(job.nbits, 4), LowBytes(job.ntime, 4);
      merkle4 := job.merkleRoot[28..];
      var version := job.version;
      RolledStart(job.version, job.versionMask);
      var i := 0;
      while i < softwareMidstates && i < NUM_MIDSTATES
        invariant 0 <= i == numMidstates <= Emitted(job.versionMask, softwareMidstates)
        invariant version == Rolled(job.version, job.versionMask, if i == 0 then 0 else i - 1)
        invariant chipSlot == slot && startingNonce == LowBytes(job.startingNonce, 4)
        invariant nbits == LowBytes(job.nbits, 4) && ntime == LowBytes(job.ntime, 4) && merkle4 == job.merkleRoot[28..]
        invariant Hashed(midstates[..], i, hash, job) && ZeroFrom(midstates[..], i)
      {
        label Turn:
        if i > 0 {
          if job.versionMask == 0 {
            break;
          }
          RolledNext(job.version, job.versionMask, i - 1);
          version := IncrementBitmask(version, job.versionMask);
        }
        HashedNext(midstates[..], i, hash, job);
        midstates[i] := Midstate(hash, job, version);
        assert midstates[..] == old@Turn(midstates[..])[i := Midstate(hash, job, version)];
        numMidstates := numMidstates + 1;
        i := i + 1;
      }
    }
  }

  datatype TaskResult = TaskResult(job: Job, rolledVersion: nat, nonce: Word, asicNr: nat, coreId: nat,
                                   smallCoreId: nat)

  /** `ntohl`: the bytes of a word in the opposite order. */
  function Ntohl(x: Word): nat {
    x % 256 * 16777216 + x / 256 % 256 * 65536 + x / 65536 % 256 * 256 + x / 16777216
  }

  /** The bytes of a word come out in the opposite order. */
  lemma NtohlReverses(x: Word)
    ensures var a, b := LowBytes(x, 4), LowBytes(Ntohl(x), 4);
      Ntohl(x) < Two(WORD) && b == [a[3], a[2], a[1], a[0]]
  {
    hide LowBytes, Two;
    WordValue();
    var b0, b1, b2, b3 := x % 256, x / 256 % 256, x / 65536 % 256, x / 16777216;
    assert x / 65536 == x / 256 / 256 && x / 16777216 == x / 256 / 256 / 256;
    FourBytes(b0, b1, b2, b3);
    FourBytes(b3, b2, b1, b0);
  }

  lemma WordValue()
    ensures Two(WORD) == 4294967296
  {
    hide Pow;
    PowAdd(2, 16, 16);
    PowAdd(2, 8, 8);
    PowAdd(2, 4, 4);
    SixteenIsTwo();
  }

  lemma SixteenIsTwo()
    ensures Pow(2, 4) == 16
  {
  }

  lemma FourBytes(b0: Byte, b1: Byte, b2: Byte, b3: Byte)
    ensures LowBytes(b0 + 256 * (b1 + 256 * (b2 + 256 * b3)), 4) == [b0, b1, b2, b3]
  {
    hide LowBytes;
    FirstByte(b0, b1 + 256 * (b2 + 256 * b3), 4);
    FirstByte(b1, b2 + 256 * b3, 3);
    FirstByte(b2, b3, 2);
    FirstByte(b3, 0, 1);
  }

  lemma FirstByte(b: Byte, rest: nat, k: nat)
    requires k > 0
    ensures LowBytes(b + 256 * rest, k) == [b] + LowBytes(rest, k - 1)
  {
    ModIs(b + 256 * rest, rest, b, 256);
  }

  class Store {
    const entries: array<Entry<Job>>
    var current: nat
    ghost var history: seq<Event<Job>>

    ghost predicate Valid()
      reads this, entries
    {
      if entries.Length == 0 then history == [] && current == 0
      else Table(entries[..], current) == Run(entries.Length, ZeroJob(), history)
    }

    /** Every slot of a new store is unused. */
    constructor (capacity: nat)
      ensures Valid() && fresh(entries) && entries.Length == capacity && history == []
    {
      entries := new Entry<Job>[capacity](_ => Entry(false, ZeroJob()));
      current := 0;
      history := [];
      new;
      assert entries.Length > 0 ==> entries[..] == Fresh(entries.Length, ZeroJob()).entries;
    }

    /** `asic_job_store_claim`: the next slot in turn, whoever holds it; nothing on a store without slots. */
    method ClaimSlot(job: Option<Job>) returns (slot: nat)
      requires Valid()
      modifies this, entries
      ensures Valid()
      ensures entries.Length == 0 ==> slot == 0 && history == old(history)
      ensures entries.Length > 0 ==>
          (history == old(history) + [Claim(if job.Some? then job.value else ZeroJob())]
           && slot == SlotAfter(entries.Length, history))
    {
      if entries.Length == 0 {
        return 0;
      }
      current := (current + 1) % entries.Length;
      slot := current;
      var stored := if job.Some? then job.value else ZeroJob();
      entries[slot] := Entry(true, stored);
      history := history + [Claim(stored)];
      assert history[..|history| - 1] == old(history);
      assert entries[..] == old(entries[..])[slot := Entry(true, stored)];
      CurrentSlot(entries.Length, ZeroJob(), history);
    }

    /** `asic_job_store_lookup`: the job of the live claim of `slot`, if there is one. */
    method LookupJob(slot: nat) returns (job: Option<Job>)
      requires Valid()
      ensures entries.Length == 0 || slot >= entries.Length ==> job == None
      ensures slot < entries.Length ==> Answers(entries.Length, history, slot, job)
    {
      if slot >= entries.Length || !entries[slot].isValid {
        job := None;
      } else {
        job := Some(entries[slot].job);
      }
      if slot < entries.Length {
        Retained(entries.Length, ZeroJob(), history, slot);
      }
    }

    /** `asic_job_store_invalidate_all`. */
    method Invalidate()
      requires Valid()
      modifies this, entries
      ensures Valid()
      ensures history == if entries.Length == 0 then old(history) else old(history) + [InvalidateAll]
    {
      var i := 0;
      while i < entries.Length
        invariant 0 <= i <= entries.Length
        invariant forall j :: 0 <= j < i ==> entries[j] == old(entries[j]).(isValid := false)
        invariant forall j :: i <= j < entries.Length ==> entries[j] == old(entries[j])
        invariant unchanged(this)
      {
        entries[i] := entries[i].(isValid := false);
        i := i + 1;
      }
      if entries.Length > 0 {
        history := history + [InvalidateAll];
        assert history[..|history| - 1] == old(history);
        assert entries[..] == Invalidated(old(entries[..]));
      }
    }
  }

  /** `bm1397_build_job_packet`: the slot just claimed, shifted, is the name the chip is given for the job. */
  method BuildPacket(store: Store, softwareMidstates: nat, job: Job, packet: Packet, hash: seq<nat> -> Bytes32)
    requires store.Valid() && packet.midstates.Length == NUM_MIDSTATES
    modifies store, store.entries, packet, packet.midstates
    ensures store.Valid()
    ensures store.entries.Length == 0 ==> store.history == old(store.history) && packet.chipSlot == 0
    ensures store.entries.Length > 0 ==>
        (store.history == old(store.history) + [Claim(job)]
         && packet.chipSlot
            == EncodeWireSlot(SlotAfter(store.entries.Length, store.history) % 256, TX_SLOT_SHIFT))
    ensures packet.numMidstates == Emitted(job.versionMask, softwareMidstates)
    ensures Hashed(packet.midstates[..], packet.numMidstates, hash, job)
  {
    var slot := store.ClaimSlot(Some(job));
    packet.Encode(job, EncodeWireSlot(slot % 256, TX_SLOT_SHIFT), softwareMidstates, hash);
  }

  /** What the decoder makes of a result naming `wire`, given the store's past. */
  ghost predicate Decodes(capacity: nat, history: seq<Event<Job>>, wire: nat, interval: nat,
                          result: Option<TaskResult>)
  {
    var slot := DecodeWireSlot(wire, MIDSTATE_BITS);
    && (interval == 0 || slot >= capacity ==> result == None)
    && (interval > 0 && slot < capacity ==>
          Answers(capacity, history, slot, if result.Some? then Some(result.value.job) else None))
    && (result.Some? ==>
          var r := result.value;
          r.rolledVersion == Rolled(r.job.version, r.job.versionMask, DecodeSubId(wire, MIDSTATE_BITS)))
  }

  /** `bm1397_decode_job_result`. */
  method DecodeJobResult(store: Store, interval: nat, wireNonce: Word, wire: nat)
    returns (result: Option<TaskResult>)
    requires store.Valid() && wire < 256
    ensures Decodes(store.entries.Length, store.history, wire, interval, result)
    ensures result.Some? ==>
        var r, h := result.value, Ntohl(wireNonce);
        r.nonce == wireNonce && r.asicNr == h / Two(17) % 256 / interval % 256
        && r.coreId == h / Two(25) % 128 && r.smallCoreId == wire % 16
  {
    hide Answers, Two, IncrementBitmask;
    if interval == 0 {
      return None;
    }
    var index := DecodeSubId(wire, MIDSTATE_BITS);
    var job := store.LookupJob(DecodeWireSlot(wire, MIDSTATE_BITS));
    if job.None? {
      return None;
    }
    var rolled := job.value.version;
    var i := 0;
    while i < index
      invariant 0 <= i <= index
      invariant rolled == Rolled(job.value.version, job.value.versionMask, i)
    {
      rolled := IncrementBitmask(rolled, job.value.versionMask);
      i := i + 1;
    }
    var h := Ntohl(wireNonce);
    result := Some(TaskResult(job.value, rolled, wireNonce, h / Two(17) % 256 / interval % 256,
                              h / Two(25) % 128, wire % 16));
  }

  /** A slot and a sub-id packed into one byte come apart again as long as the byte has room for every slot. */
  lemma WireRoundTrip(slot: nat, sub: nat, shift: nat)
    requires sub < Two(shift) && (slot + 1) * Two(shift) <= 256
    ensures var wire := Or(EncodeWireSlot(slot, shift), sub);
      wire < 256 && DecodeWireSlot(wire, shift) == slot && DecodeSubId(wire, shift) == sub
  {
    hide Or, And, Shl, Two;
    ShlIsProduct(slot, shift);
    MulAdd(slot, 1, Two(shift));
    ModIs(Shl(slot, shift), 0, Shl(slot, shift), 256);
    LowBits(slot, sub, shift);
    ModIs(Shl(slot, shift) + sub, slot, sub, Two(shift));
  }

  /** A slot's byte names the slot exactly when it is not cut off. */
  lemma WireSlotFits(slot: nat, shift: nat)
    ensures DecodeWireSlot(EncodeWireSlot(slot, shift), shift) == slot <==> Shl(slot, shift) < 256
  {
    hide Shl, Two;
    ShlIsProduct(slot, shift);
    var wire := EncodeWireSlot(slot, shift);
    if Shl(slot, shift) < 256 {
      ModIs(Shl(slot, shift), 0, Shl(slot, shift), 256);
      ModIs(wire, slot, 0, Two(shift));
    } else {
      DivId(wire, Two(shift));
      assert DecodeWireSlot(wire, shift) * Two(shift) <= wire < slot * Two(shift);
    }
  }

  /** The versions the decoder reports are the versions that were hashed: after a job is sent, and as long as
      fewer than `capacity` jobs follow and nothing is invalidated, a result naming midstate `i` of its packet
      is decoded to that job and to the version midstate `i` was computed from. */
  lemma DecodedVersionWasHashed(capacity: nat, past: seq<Event<Job>>, job: Job, later: seq<Event<Job>>,
                                midstates: seq<Bytes32>, n: nat, hash: seq<nat> -> Bytes32, i: nat,
                                interval: nat, result: Option<TaskResult>)
    requires 0 < capacity && 0 < interval && SlotAfter(capacity, past + [Claim(job)]) < 64
    requires OnlyClaims(later, 0) && Claims(later) < capacity
    requires i < n <= NUM_MIDSTATES && Hashed(midstates, n, hash, job)
    requires var chipSlot := EncodeWireSlot(SlotAfter(capacity, past + [Claim(job)]) % 256, TX_SLOT_SHIFT);
      Decodes(capacity, past + [Claim(job)] + later, Or(chipSlot, i), interval, result)
    ensures result.Some? && result.value.job == job
    ensures midstates[i] == Midstate(hash, job, result.value.rolledVersion)
  {
    hide Or, And, Shl, Claims, Midstate, EncodeWireSlot, DecodeWireSlot, DecodeSubId, SlotAfter, Rolled;
    var h := past + [Claim(job)];
    var slot := SlotAfter(capacity, h);
    ModIs(slot, 0, slot, 256);
    assert Two(MIDSTATE_BITS) == 4;
    WireRoundTrip(slot, i, MIDSTATE_BITS);
    StillLive(capacity, past, job, later);
  }

  lemma StillLive(capacity: nat, past: seq<Event<Job>>, job: Job, later: seq<Event<Job>>)
    requires 0 < capacity && OnlyClaims(later, 0) && Claims(later) < capacity
    ensures var h := past + [Claim(job)];
      Live(capacity, h + later, |past|, SlotAfter(capacity, h)) && (h + later)[|past|] == Claim(job)
  {
    hide Claims;
    var h := past + [Claim(job)];
    assert (h + later)[..|past| + 1] == h;
    ClaimsConcat(h, later);
  }

  lemma {:induction false} ClaimsConcat(a: seq<Event<Job>>, b: seq<Event<Job>>)
    ensures Claims(a + b) == Claims(a) + Claims(b)
  {
    if b == [] {
      assert a + b == a;
    } else {
      assert (a + b)[..|a + b| - 1] == a + b[..|b| - 1];
      ClaimsConcat(a, b[..|b| - 1]);
    }
  }
}
