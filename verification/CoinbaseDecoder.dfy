/** `coinbase_store_output` and `parse_coinbase_suffix`, in place on the notification result. */
module CoinbaseDecoder {
  import opened Wrappers
  import opened Numerals
  import opened CoinbaseSuffix
  import opened CoinbaseLedger

  const U64_MAX: nat := 0xFFFF_FFFF_FFFF_FFFF

  /** The size of an output's address field, terminator included. */
  const ADDRESS_FIELD: nat := 128

  /** An address as its field holds it. */
  function Fitted(address: string): string {
    if |address| < ADDRESS_FIELD then address else address[..ADDRESS_FIELD - 1]
  }

  class Notification {
    const outputs: array<Output>
    var outputCount: nat
    var othersCount: nat
    var othersValue: nat
    var totalValue: nat
    var userValue: nat
    var blockHeight: nat
    var bip54: bool

    ghost predicate Valid()
      reads this
    {
      outputs.Length == MAX_OUTPUTS && outputCount <= MAX_OUTPUTS
      && othersValue < U64 && totalValue < U64 && userValue < U64
    }

    ghost function Table(): (l: Ledger)
      reads this, outputs
      requires Valid()
    {
      Ledger(outputs[..outputCount], othersCount, othersValue)
    }

    /** The fields as `coinbase_process_miner_job` initialises them. */
    constructor (height: nat, blank: Output)
      ensures Valid() && fresh(outputs) && Table() == EMPTY
      ensures totalValue == 0 && userValue == 0 && blockHeight == height
    {
      outputs := new Output[MAX_OUTPUTS](_ => blank);
      outputCount, othersCount, othersValue := 0, 0, 0;
      totalValue, userValue, blockHeight, bip54 := 0, 0, height, false;
    }

    /** `coinbase_store_output`. */
    method StoreOutput(address: string, value: nat, isUser: bool)
      requires Valid()
      modifies this`outputCount, this`othersCount, this`othersValue, outputs
      ensures Valid() && Table() == Store(old(Table()), Output(value, Fitted(address), isUser))
    {
      hide EvictIndex;
      var idx: int := outputCount;
      if idx >= MAX_OUTPUTS {
        if value == 0 {
          return;
        }
        var evictValue := U64_MAX;
        idx := -1;
        var i := 0;
        NoCandidate(outputs[..]);
        while i < MAX_OUTPUTS
          invariant 0 <= i <= MAX_OUTPUTS && outputCount == MAX_OUTPUTS
          invariant Valid() && Table() == old(Table())
          invariant idx == EvictIndex(outputs[..], i)
          invariant evictValue == if idx < 0 then U64_MAX else outputs[idx].value
        {
          NextCandidate(outputs[..], i);
          if !outputs[i].isUser && outputs[i].value != 0 && outputs[i].value < evictValue {
            evictValue := outputs[i].value;
            idx := i;
          }
          i := i + 1;
        }
        assert outputs[..outputCount] == outputs[..];
        if idx < 0 || (!isUser && value <= evictValue) {
          othersCount := othersCount + 1;
          othersValue := (othersValue + value) % U64;
          return;
        }
        othersCount := othersCount + 1;
        othersValue := (othersValue + evictValue) % U64;
      } else {
        outputCount := outputCount + 1;
      }
      outputs[idx] := Output(value, Fitted(address), isUser);
    }

    /** Move the user output at `i` left past the non-user outputs `v` before it. */
    method InsertUser(i: nat, ghost u: seq<Output>, ghost v: seq<Output>, ghost rest: seq<Output>)
      requires Valid() && i < outputCount && i == |u| + |v|
      requires Hole(outputs[..outputCount], u, v, rest, i) && Sides(u, v)
      modifies outputs
      ensures outputs[..outputCount] == u + [old(outputs[i])] + v + rest
    {
      hide Sides, Hole;
      var temp := outputs[i];
      var j := i;
      ghost var s := outputs[..outputCount];
      while j > 0 && !outputs[j - 1].isUser
        invariant 0 <= j <= i && s == outputs[..outputCount] && Hole(s, u, v, rest, j)
      {
        assert outputs[j - 1] == s[j - 1];
        HoleSize(s, u, v, rest, j);
        HoleStays(s, u, v, rest, j);
        HoleMoves(s, u, v, rest, j);
        outputs[j] := outputs[j - 1];
        s := s[j := s[j - 1]];
        j := j - 1;
      }
      assert j > 0 ==> outputs[j - 1] == s[j - 1];
      HoleSize(s, u, v, rest, j);
      HoleStays(s, u, v, rest, j);
      HoleFilled(s, u, v, rest, temp);
      outputs[j] := temp;
      assert outputs[..outputCount] == s[j := temp];
    }

    /** The last loop of `parse_coinbase_suffix`: insertion of each user output before the
        non-user outputs to its left. */
    method PartitionOutputs()
      requires Valid()
      modifies outputs
      ensures Valid() && outputs[..outputCount] == UsersFirst(old(outputs[..outputCount]))
    {
      hide Users, Others, Hole, Sides;
      ghost var was, done := outputs[..outputCount], if outputCount == 0 then 0 else 1;
      var i := 1;
      PartitionStart(was);
      while i < outputCount
        invariant 1 <= i && done == (if i <= outputCount then i else outputCount) && |was| == outputCount
        invariant outputs[..outputCount] == UsersFirst(was[..done]) + was[done..]
      {
        PartitionNext(was, i);
        ghost var u, v, rest := Users(was[..i]), Others(was[..i]), was[i + 1..];
        assert outputs[i] == outputs[..outputCount][i] == was[i];
        if outputs[i].isUser {
          InsertUser(i, u, v, rest);
        }
        i := i + 1;
        done := i;
      }
      assert was[..done] == was;
    }

    /** The decoding branch of the output loop: match the script, then store the output. */
    method StoreDecoded(raw: RawOutput, value: nat, userScripts: seq<seq<Byte>>, address: seq<Byte> -> string)
      requires Valid() && value == raw.Amount()
      modifies this`outputCount, this`othersCount, this`othersValue, this`userValue, outputs
      ensures Valid() && Table() == Store(old(Table()), Event(raw, userScripts, address))
      ensures userValue == (old(userValue) + UserAmount(Event(raw, userScripts, address))) % U64
    {
      hide Store, RawOutput.Amount;
      var isUser := false;
      if |userScripts| > 0 && value > 0 {
        var u := 0;
        while u < |userScripts|
          invariant 0 <= u <= |userScripts| && raw.script !in userScripts[..u] && !isUser
        {
          if |raw.script| == |userScripts[u]| && raw.script == userScripts[u] {
            isUser := true;
            break;
          }
          u := u + 1;
        }
      }
      if isUser {
        userValue := (userValue + value) % U64;
      }
      StoreOutput(address(raw.script), value, isUser);
    }

    /** One round of the output loop. A truncated script length goes unnoticed here: it leaves
        `next` at the end of the data, where nothing more can be read. */
    method ReadOutput(data: seq<Byte>, from: nat, userScripts: seq<seq<Byte>>,
                      address: seq<Byte> -> string, decode: bool)
      returns (ok: bool, next: nat, ghost event: Output)
      requires Valid() && from <= |data|
      modifies this`outputCount, this`othersCount, this`othersValue, this`userValue, this`totalValue, outputs
      ensures Valid()
      ensures ok ==> from < next <= |data|
      ensures match OutputAt(data, from)
        case None => ok ==> next == |data|
        case Some((raw, p)) =>
          (ok <==> old(totalValue) + raw.Amount() < U64)
          && (ok ==> next == p && totalValue == old(totalValue) + raw.Amount())
          && (ok && decode ==> event == Event(raw, userScripts, address))
      ensures ok && decode ==>
          Table() == Store(old(Table()), event) && userValue == (old(userValue) + UserAmount(event)) % U64
      ensures !ok || !decode ==> Table() == old(Table()) && userValue == old(userValue)
      ensures totalValue >= old(totalValue)
    {
      hide VarintAt, LittleEndian, Store;
      next := from;
      event := Output(0, "", false);
      if |data| - from < 8 { return false, next, event; }
      AmountBound(data[from..from + 8]);
      var value := ReadLE(data, from, 8);
      next := from + 8;
      if U64_MAX - totalValue < value { return false, next, event; }
      totalValue := totalValue + value;
      VarintInside(data, next);
      if next >= |data| { return false, next, event; }
      var scriptLen;
      scriptLen, next := DecodeVarint(data, next);
      if scriptLen > |data| - next { return false, next, event; }
      if decode {
        var raw := RawOutput(data[from..from + 8], [], data[next..next + scriptLen]);
        event := Event(raw, userScripts, address);
        StoreDecoded(raw, value, userScripts, address);
      }
      next := next + scriptLen;
      ok := true;
    }

    /** The output loop, from behind the count. An unnoticed truncation leaves it at the end of the data. */
    method ReadOutputs(data: seq<Byte>, start: nat, n: nat, userScripts: seq<seq<Byte>>,
                       address: seq<Byte> -> string, decode: bool)
      returns (ok: bool, next: nat, ghost events: seq<Output>)
      requires Valid() && start <= |data|
      modifies this`outputCount, this`othersCount, this`othersValue, this`userValue, this`totalValue, outputs
      ensures Valid() && next <= |data| && totalValue >= old(totalValue)
      ensures !decode ==> Table() == old(Table()) && userValue == old(userValue)
      ensures match OutputsAt(data, start, n)
        case None => ok ==> next == |data|
        case Some((outs, p)) =>
          (ok <==> old(totalValue) + Total(outs) < U64)
          && (ok ==> next == p && totalValue == old(totalValue) + Total(outs))
          && (ok && decode ==> events == Events(outs, userScripts, address))
      ensures decode ==> Applied(old(Table()), old(userValue), events, Table(), userValue)
    {
      hide OutputsAt, OutputAt, Total, Events, Store, Reading, Event, RawOutput.Amount, Applied, UserAmount;
      next, events := start, [];
      ghost var was, user0 := Table(), userValue;
      ghost var all := OutputsAt(data, start, n);
      ghost var outs: seq<RawOutput>, good := [], true;
      ReadingStart(data, start, n, totalValue);
      RunStart(was, user0);
      EventsNone(userScripts, address);
      var i := 0;
      while i < n
        invariant Valid() && 0 <= i <= n && next <= |data| && totalValue >= old(totalValue)
        invariant good ==> Reading(all, outs, data, next, n - i, old(totalValue), totalValue)
        invariant good && decode ==> events == Events(outs, userScripts, address)
        invariant decode ==> Applied(was, user0, events, Table(), userValue)
        invariant !decode ==> Table() == was && userValue == user0
        invariant !good ==> all == None && next == |data|
        decreases |data| - next
      {
        if good {
          ReadingStep(all, outs, data, next, n - i, old(totalValue), totalValue);
        }
        ghost var at := OutputAt(data, next);
        ghost var before, userBefore := Table(), userValue;
        OutputInside(data, next);
        var read;
        ghost var event;
        read, next, event := ReadOutput(data, next, userScripts, address, decode);
        if !read { return false, |data|, events; }
        if decode {
          RunStep(was, user0, events, event, before, userBefore);
          events := events + [event];
        }
        if good && at.Some? {
          EventsSnoc(outs, at.value.0, userScripts, address);
          outs := outs + [at.value.0];
        } else {
          good := false;
        }
        i := i + 1;
      }
      if good {
        ReadingDone(all, outs, data, next, old(totalValue), totalValue);
      }
      ok := true;
    }

    /** `parse_coinbase_suffix`. It succeeds exactly when the bytes from `offset0` are a whole suffix
        whose values keep the total within 64 bits. */
    method ParseSuffix(data: seq<Byte>, offset0: nat, userScripts: seq<seq<Byte>>,
                       address: seq<Byte> -> string, decode: bool) returns (ok: bool)
      requires Valid()
      modifies this, outputs
      ensures Valid()
      ensures ok <==> Parse(data, offset0).Some? && old(totalValue) + Total(Parse(data, offset0).value.outputs) < U64
      ensures ok ==>
        var raw := Parse(data, offset0).value;
        var events := if decode then Events(raw.outputs, userScripts, address) else [];
        var l := Run(Ledger([], old(othersCount), old(othersValue)), events);
        Table() == l.(outputs := UsersFirst(l.outputs))
        && totalValue == old(totalValue) + Total(raw.outputs)
        && userValue == (old(userValue) + UserTotal(events)) % U64
        && bip54 == (decode && old(blockHeight) > 0 && LittleEndian(raw.lockTime) == old(blockHeight) - 1
                     && LittleEndian(raw.sequence) != 0xFFFF_FFFF)
      ensures blockHeight == old(blockHeight) && (!ok ==> bip54 == old(bip54))
      ensures totalValue >= old(totalValue) && (!decode ==> userValue == old(userValue))
      ensures !ok ==>
        (Table() == old(Table()) && userValue == old(userValue))
        || exists es :: Applied(Ledger([], old(othersCount), old(othersValue)), old(userValue), es, Table(), userValue)
    {
      hide OutputsAt, VarintAt, LittleEndian, Run, Total, UserTotal, Events, UsersFirst, Applied;
      var offset := offset0;
      if offset + 4 > |data| { return false; }
      var nSequence := ReadLE(data, offset, 4);
      offset := offset + 4;
      VarintInside(data, offset);
      if offset >= |data| { return false; }
      var numOutputs;
      numOutputs, offset := DecodeVarint(data, offset);
      if numOutputs == 0 { return false; }
      outputCount := 0;
      ghost var start, was, user0 := offset, Table(), userValue;
      ghost var all := OutputsAt(data, start, numOutputs);
      var read;
      ghost var events;
      RunStart(was, user0);
      read, offset, events := ReadOutputs(data, offset, numOutputs, userScripts, address, decode);
      assert Applied(was, user0, if decode then events else [], Table(), userValue);
      if !read { return false; }
      if |data| - offset != 4 { return false; }
      var nLockTime := ReadLE(data, offset, 4);
      assert data[offset..offset + 4] == data[offset..];
      bip54 := decode && blockHeight > 0 && nLockTime == blockHeight - 1 && nSequence != 0xFFFF_FFFF;
      if all.Some? {
        RunDone(was, user0, if decode then events else [], Table(), userValue);
      }
      PartitionOutputs();
      ok := true;
    }
  }

  lemma AmountBound(s: seq<Byte>)
    requires |s| == 8
    ensures LittleEndian(s) < U64
  {
    LittleEndianBound(s);
  }

  lemma {:induction false} LittleEndianBound(s: seq<Byte>)
    ensures LittleEndian(s) < Pow(256, |s|)
  {
    if s == [] {
    } else {
      LittleEndianBound(s[1..]);
    }
  }

  lemma VarintInside(data: seq<Byte>, o: nat)
    ensures VarintAt(data, o).Some? ==> o < VarintAt(data, o).value.1 <= |data|
  {
  }

  lemma OutputInside(data: seq<Byte>, o: nat)
    ensures OutputAt(data, o).Some? ==> o + 9 <= OutputAt(data, o).value.1 <= |data|
    ensures o == |data| ==> OutputAt(data, o).None?
  {
    hide LittleEndian;
  }

  lemma ReadingStart(data: seq<Byte>, start: nat, n: nat, total: nat)
    ensures Reading(OutputsAt(data, start, n), [], data, start, n, total, total)
  {
    var rest := OutputsAt(data, start, n);
    assert rest.Some? ==> [] + rest.value.0 == rest.value.0;
  }

  lemma ReadingStep(all: Option<(seq<RawOutput>, nat)>, outs: seq<RawOutput>, data: seq<Byte>, offset: nat,
                    left: nat, total0: nat, total: nat)
    requires Reading(all, outs, data, offset, left, total0, total) && left > 0
    ensures match OutputAt(data, offset)
      case None => all == None
      case Some((raw, p)) =>
        Reading(all, outs + [raw], data, p, left - 1, total0, total + raw.Amount())
        && (all.Some? ==> total0 + Total(all.value.0) >= total + raw.Amount())
  {
    hide OutputAt, RawOutput.Amount;
    if OutputAt(data, offset).Some? {
      var (raw, p) := OutputAt(data, offset).value;
      var rest := OutputsAt(data, p, left - 1);
      TotalSnoc(outs, raw);
      if rest.Some? {
        assert outs + ([raw] + rest.value.0) == (outs + [raw]) + rest.value.0;
        TotalGrows(outs + [raw], rest.value.0);
      }
    }
  }

  lemma ReadingDone(all: Option<(seq<RawOutput>, nat)>, outs: seq<RawOutput>, data: seq<Byte>, offset: nat,
                    total0: nat, total: nat)
    requires Reading(all, outs, data, offset, 0, total0, total)
    ensures all == Some((outs, offset)) && total == total0 + Total(outs)
  {
    assert outs + [] == outs;
  }

  lemma TotalSnoc(outs: seq<RawOutput>, raw: RawOutput)
    ensures Total(outs + [raw]) == Total(outs) + raw.Amount()
  {
    assert (outs + [raw])[..|outs + [raw]| - 1] == outs;
  }

  lemma {:induction false} TotalGrows(outs: seq<RawOutput>, more: seq<RawOutput>)
    ensures Total(outs + more) >= Total(outs)
  {
    if more == [] {
      assert outs + more == outs;
    } else {
      assert (outs + more)[..|outs + more| - 1] == outs + more[..|more| - 1];
      TotalGrows(outs, more[..|more| - 1]);
    }
  }

  /** `es` have been stored in the table `was`, starting from the user value `user0`. */
  ghost predicate Applied(was: Ledger, user0: nat, es: seq<Output>, now: Ledger, user: nat) {
    now == Run(was, es) && user == (user0 + UserTotal(es)) % U64
  }

  lemma RunStart(was: Ledger, user0: nat)
    requires user0 < U64
    ensures Applied(was, user0, [], was, user0)
  {
  }

  lemma RunStep(was: Ledger, user0: nat, es: seq<Output>, e: Output, now: Ledger, user: nat)
    requires Applied(was, user0, es, now, user)
    ensures Applied(was, user0, es + [e], Store(now, e), (user + UserAmount(e)) % U64)
  {
    hide Store;
    assert (es + [e])[..|es|] == es;
  }

  lemma EventsNone(userScripts: seq<seq<Byte>>, address: seq<Byte> -> string)
    ensures Events([], userScripts, address) == []
  {
  }

  lemma EventsSnoc(outs: seq<RawOutput>, raw: RawOutput, userScripts: seq<seq<Byte>>, address: seq<Byte> -> string)
    ensures Events(outs + [raw], userScripts, address)
         == Events(outs, userScripts, address) + [Event(raw, userScripts, address)]
  {
    hide Event;
  }

  lemma RunDone(was: Ledger, user0: nat, es: seq<Output>, now: Ledger, user: nat)
    requires Applied(was, user0, es, now, user)
    ensures now == Run(was, es) && user == (user0 + UserTotal(es)) % U64
  {
  }

  ghost function Total(outs: seq<RawOutput>): nat {
    if outs == [] then 0 else Total(outs[..|outs| - 1]) + outs[|outs| - 1].Amount()
  }

  function UserTotal(es: seq<Output>): nat {
    if es == [] then 0 else UserTotal(es[..|es| - 1]) + UserAmount(es[|es| - 1])
  }

  ghost function Events(outs: seq<RawOutput>, userScripts: seq<seq<Byte>>, address: seq<Byte> -> string)
    : (es: seq<Output>)
    ensures |es| == |outs|
    ensures forall i :: 0 <= i < |es| ==> es[i] == Event(outs[i], userScripts, address)
  {
    seq(|outs|, i requires 0 <= i < |outs| => Event(outs[i], userScripts, address))
  }

  /** `outs` have been read; what follows at `offset` decides the rest of `all`. */
  ghost predicate Reading(all: Option<(seq<RawOutput>, nat)>, outs: seq<RawOutput>, data: seq<Byte>, offset: nat,
                          left: nat, total0: nat, total: nat) {
    var rest := OutputsAt(data, offset, left);
    total == total0 + Total(outs)
    && all == if rest.None? then None else Some((outs + rest.value.0, rest.value.1))
  }

  /** What the table is told about an output. */
  ghost function Event(raw: RawOutput, userScripts: seq<seq<Byte>>, address: seq<Byte> -> string): Output {
    Output(raw.Amount(), Fitted(address(raw.script)), raw.Amount() > 0 && raw.script in userScripts)
  }

  function UserAmount(o: Output): nat {
    if o.isUser then o.value else 0
  }

  lemma NoCandidate(outs: seq<Output>)
    ensures EvictIndex(outs, 0) == -1
  {}

  lemma NextCandidate(outs: seq<Output>, i: nat)
    requires i < |outs|
    ensures var k := EvictIndex(outs, i);
      EvictIndex(outs, i + 1) ==
        if Evictable(outs[i]) && (k == -1 || outs[i].value < outs[k].value) then i else k
  {}

  lemma PartitionStart(was: seq<Output>)
    ensures was == [] ==> UsersFirst(was) == []
    ensures was != [] ==> UsersFirst(was[..1]) == was[..1]
  {
    if was != [] {
      var s := was[..1];
      assert s[..|s| - 1] == [];
      assert Users(s[..|s| - 1]) == [] && Others(s[..|s| - 1]) == [];
    }
  }

  lemma UsersFirstNext(was: seq<Output>, i: nat)
    requires i < |was|
    ensures var u, v, o := Users(was[..i]), Others(was[..i]), was[i];
      UsersFirst(was[..i + 1]) == (if o.isUser then u + [o] + v else u + v + [o])
  {
    assert was[..i + 1][..i] == was[..i];
  }

  /** `u` and `v`, the users and the others so far, all in place, before the next output. */
  lemma PartitionNext(was: seq<Output>, i: nat)
    requires i < |was|
    ensures var u, v, o := Users(was[..i]), Others(was[..i]), was[i];
      |u| + |v| == i && Sides(u, v)
      && UsersFirst(was[..i + 1]) == (if o.isUser then u + [o] + v else u + v + [o])
      && Hole(UsersFirst(was[..i]) + was[i..], u, v, was[i + 1..], i)
      && UsersFirst(was[..i]) + was[i..] == u + v + [o] + was[i + 1..]
  {
    hide Users, Others, Hole, Sides;
    SidesOf(was[..i]);
    UsersFirstNext(was, i);
    var u, v, o, rest := Users(was[..i]), Others(was[..i]), was[i], was[i + 1..];
    assert UsersFirst(was[..i]) == u + v;
    hide UsersFirst;
    TakeNext(u + v, was, i);
    HoleOpens(u, v, o, rest);
  }

  lemma TakeNext(done: seq<Output>, was: seq<Output>, i: nat)
    requires i < |was|
    ensures done + was[i..] == done + [was[i]] + was[i + 1..]
  {
    assert was[i..] == [was[i]] + was[i + 1..];
  }

  lemma SidesOf(s: seq<Output>)
    ensures Sides(Users(s), Others(s)) && |Users(s)| + |Others(s)| == |s|
  {
    UsersFirstShape(s);
  }

  lemma HoleOpens(u: seq<Output>, v: seq<Output>, o: Output, rest: seq<Output>)
    ensures Hole(u + v + [o] + rest, u, v, rest, |u| + |v|)
  {
  }

  ghost predicate Sides(u: seq<Output>, v: seq<Output>) {
    (forall p :: p in u ==> p.isUser) && (forall p :: p in v ==> !p.isUser)
  }

  /** `s` is `u + v + rest` with one place at `j`, right of `u`, whose content does not matter. */
  ghost predicate Hole(s: seq<Output>, u: seq<Output>, v: seq<Output>, rest: seq<Output>, j: nat) {
    |u| <= j <= |u| + |v| && |s| == |u| + |v| + 1 + |rest|
    && s[..j] == u + v[..j - |u|] && s[j + 1..] == v[j - |u|..] + rest
  }

  lemma HoleSize(s: seq<Output>, u: seq<Output>, v: seq<Output>, rest: seq<Output>, j: nat)
    requires Hole(s, u, v, rest, j)
    ensures |u| <= j <= |u| + |v| && |s| == |u| + |v| + 1 + |rest|
  {
  }

  /** The output left of the hole is a user's exactly when only user outputs are left of it. */
  lemma HoleStays(s: seq<Output>, u: seq<Output>, v: seq<Output>, rest: seq<Output>, j: nat)
    requires Hole(s, u, v, rest, j)
    requires Sides(u, v)
    ensures j > 0 ==> (s[j - 1].isUser <==> j == |u|)
    ensures j == 0 ==> j == |u|
  {
    if j > 0 {
      assert s[j - 1] == s[..j][j - 1];
    }
  }

  lemma HoleMoves(s: seq<Output>, u: seq<Output>, v: seq<Output>, rest: seq<Output>, j: nat)
    requires Hole(s, u, v, rest, j) && j > |u|
    ensures Hole(s[j := s[j - 1]], u, v, rest, j - 1)
  {
    var t, a := s[j := s[j - 1]], j - |u|;
    assert s[j - 1] == s[..j][j - 1] == v[a - 1];
    assert t[..j - 1] == s[..j][..j - 1];
    assert t[j..] == [s[j - 1]] + s[j + 1..];
    assert v[a - 1..] == [v[a - 1]] + v[a..];
  }

  lemma HoleFilled(s: seq<Output>, u: seq<Output>, v: seq<Output>, rest: seq<Output>, o: Output)
    requires Hole(s, u, v, rest, |u|)
    ensures s[|u| := o] == u + [o] + v + rest
  {
    assert s[|u| := o] == s[..|u|] + [o] + s[|u| + 1..];
  }

  lemma {:induction false} EventsSum(outs: seq<RawOutput>, userScripts: seq<seq<Byte>>, address: seq<Byte> -> string)
    ensures Sum(Events(outs, userScripts, address)) == Total(outs)
  {
    hide RawOutput.Amount;
    if outs == [] {
    } else {
      var init := outs[..|outs| - 1];
      EventsSum(init, userScripts, address);
      var es := Events(outs, userScripts, address);
      assert es[..|es| - 1] == Events(init, userScripts, address);
    }
  }

  /** What a decoded suffix leaves in a fresh table accounts for every satoshi of its outputs; no aggregated
      output of others is larger than a shown positive output of others; and no user output is aggregated
      exactly when the user's outputs fit. The user value is what the outputs to the user's scripts are worth, and
      what the user outputs shown are worth unless some did not fit. */
  lemma SuffixAccounted(outs: seq<RawOutput>, userScripts: seq<seq<Byte>>, address: seq<Byte> -> string)
    requires Total(outs) < U64
    ensures var es := Events(outs, userScripts, address);
      var l := Run(EMPTY, es);
      Sum(UsersFirst(l.outputs)) + l.othersValue == Total(outs)
      && multiset(UsersFirst(l.outputs)) == multiset(l.outputs)
      && KeepsLargest(UsersFirst(l.outputs), Aggregated(EMPTY, es))
      && (NoUser(Aggregated(EMPTY, es)) <==> UsersFit(es))
      && UserTotal(es) == Total(PaidTo(outs, userScripts))
      && Share(UsersFirst(l.outputs)) + Share(Aggregated(EMPTY, es)) == UserTotal(es)
      && (UsersFit(es) ==> Share(UsersFirst(l.outputs)) == UserTotal(es))
  {
    hide Run, Aggregated, RawOutput.Amount, Event, UsersFirst, NoUser, UsersFit, UserTotal, PaidTo, Total, Users;
    var es := Events(outs, userScripts, address);
    var l := Run(EMPTY, es);
    EventsSum(outs, userScripts, address);
    Conservation(es);
    UsersKept(es);
    UserTotalIsShare(es);
    EventsShare(outs, userScripts, address);
    ShareConserved(es);
    ShareOrdered(l.outputs);
    if UsersFit(es) {
      ShareShown(es);
    }
    SumBounds(es);
    LargestKept(es);
    UsersFirstSum(l.outputs);
    UsersFirstShape(l.outputs);
    SameOutputs(UsersFirst(l.outputs), l.outputs);
  }

  /** An output as it is shown: its amount, as much of its address as the field holds, and whether it pays the user. */
  ghost predicate Shows(o: Output, raw: RawOutput, userScripts: seq<seq<Byte>>, address: seq<Byte> -> string) {
    var a := address(raw.script);
    o.value == LittleEndian(raw.value) && |o.address| < ADDRESS_FIELD && o.address <= a
    && (o.address != a ==> |o.address| + 1 == ADDRESS_FIELD)
    && (o.isUser <==> o.value > 0 && raw.script in userScripts)
  }

  /** Every output shown is one of the outputs decoded. */
  lemma ShownAreDecoded(outs: seq<RawOutput>, userScripts: seq<seq<Byte>>, address: seq<Byte> -> string, o: Output)
    requires o in UsersFirst(Run(EMPTY, Events(outs, userScripts, address)).outputs)
    ensures exists raw :: raw in outs && Shows(o, raw, userScripts, address)
  {
    hide UsersFirst, Run, LittleEndian;
    var es := Events(outs, userScripts, address);
    var shown := Run(EMPTY, es).outputs;
    UsersFirstShape(shown);
    SameOutputs(UsersFirst(shown), shown);
    ShownWereSeen(es);
    var i :| 0 <= i < |es| && es[i] == o;
    assert Shows(o, outs[i], userScripts, address);
  }

  /** The raw outputs whose script is one of `userScripts`. */
  function PaidTo(outs: seq<RawOutput>, userScripts: seq<seq<Byte>>): seq<RawOutput> {
    if outs == [] then []
    else
      var raw := outs[|outs| - 1];
      PaidTo(outs[..|outs| - 1], userScripts) + if raw.script in userScripts then [raw] else []
  }

  lemma {:induction false} UserTotalIsShare(es: seq<Output>)
    ensures UserTotal(es) == Share(es)
    decreases |es|
  {
    hide Share;
    if es == [] {
      ShareNone();
    } else {
      var init, o := es[..|es| - 1], es[|es| - 1];
      UserTotalIsShare(init);
      assert es == init + [o];
      ShareConcat(init, [o]);
      ShareOne(o);
    }
  }

  /** What is counted for the user is what the outputs to the user's scripts are worth. */
  lemma {:induction false} EventsShare(outs: seq<RawOutput>, userScripts: seq<seq<Byte>>,
                                       address: seq<Byte> -> string)
    ensures UserTotal(Events(outs, userScripts, address)) == Total(PaidTo(outs, userScripts))
    decreases |outs|
  {
    hide RawOutput.Amount, Total;
    if outs == [] {
      TotalNone();
    } else {
      var init, raw := outs[..|outs| - 1], outs[|outs| - 1];
      EventsShare(init, userScripts, address);
      EventsLast(outs, userScripts, address);
      hide PaidTo, UserTotal, UserAmount, Event, Events;
      UserTotalLast(Events(outs, userScripts, address));
      PaidLast(init, raw, userScripts);
      assert outs == init + [raw];
    }
  }

  lemma EventsLast(outs: seq<RawOutput>, userScripts: seq<seq<Byte>>, address: seq<Byte> -> string)
    requires outs != []
    ensures var es, raw := Events(outs, userScripts, address), outs[|outs| - 1];
      es[..|es| - 1] == Events(outs[..|outs| - 1], userScripts, address)
      && es[|es| - 1].value == raw.Amount()
      && es[|es| - 1].isUser == (raw.Amount() > 0 && raw.script in userScripts)
  {
    hide RawOutput.Amount, Fitted;
  }

  lemma UserTotalLast(es: seq<Output>)
    requires es != []
    ensures var o := es[|es| - 1];
      UserTotal(es) == UserTotal(es[..|es| - 1]) + if o.isUser then o.value else 0
  {
  }

  lemma PaidLast(init: seq<RawOutput>, raw: RawOutput, userScripts: seq<seq<Byte>>)
    ensures Total(PaidTo(init + [raw], userScripts))
         == Total(PaidTo(init, userScripts)) + if raw.script in userScripts then raw.Amount() else 0
  {
    hide RawOutput.Amount, Total;
    var outs := init + [raw];
    assert outs[..|outs| - 1] == init && outs[|outs| - 1] == raw && outs != [];
    assert PaidTo(init, userScripts) + [] == PaidTo(init, userScripts);
    TotalSnoc(PaidTo(init, userScripts), raw);
  }

  lemma TotalNone()
    ensures Total([]) == 0
  {
  }

  lemma SameOutputs(a: seq<Output>, b: seq<Output>)
    requires multiset(a) == multiset(b)
    ensures forall y :: y in a ==> y in b
  {
    forall y | y in a ensures y in b {
      assert y in multiset(a);
    }
  }

  lemma {:induction false} SumBounds(es: seq<Output>)
    ensures forall e :: e in es ==> e.value <= Sum(es)
  {
    if es == [] {
    } else {
      SumBounds(es[..|es| - 1]);
    }
  }
}
