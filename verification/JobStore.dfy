/** The recycling store of jobs sent to the chips. Its state is described by the events of its past:
    which job a slot still answers for is read off the history, not off the table. */
module JobStore {
  import opened Wrappers
  import opened Numerals

  datatype Event<J> = Claim(job: J) | InvalidateAll

  datatype Entry<J> = Entry(isValid: bool, job: J)

  datatype Table<J> = Table(entries: seq<Entry<J>>, current: nat)

  function Claims<J>(history: seq<Event<J>>): nat {
    if history == [] then 0
    else Claims(history[..|history| - 1]) + if history[|history| - 1].Claim? then 1 else 0
  }

  function Invalidated<J>(entries: seq<Entry<J>>): (r: seq<Entry<J>>)
    ensures |r| == |entries|
  {
    seq(|entries|, i requires 0 <= i < |entries| => entries[i].(isValid := false))
  }

  /** One event on a table with at least one slot. */
  function Step<J>(t: Table<J>, e: Event<J>): (r: Table<J>)
    requires |t.entries| > 0
    ensures |r.entries| == |t.entries|
  {
    match e
    case Claim(job) =>
      var slot := (t.current + 1) % |t.entries|;
      Table(t.entries[slot := Entry(true, job)], slot)
    case InvalidateAll => t.(entries := Invalidated(t.entries))
  }

  function Fresh<J>(capacity: nat, zero: J): Table<J> {
    Table(seq(capacity, _ => Entry(false, zero)), 0)
  }

  function Run<J>(capacity: nat, zero: J, history: seq<Event<J>>): (t: Table<J>)
    requires capacity > 0
    ensures |t.entries| == capacity
  {
    if history == [] then Fresh(capacity, zero)
    else Step(Run(capacity, zero, history[..|history| - 1]), history[|history| - 1])
  }

  function Lookup<J>(t: Table<J>, slot: nat): Option<J> {
    if slot >= |t.entries| || !t.entries[slot].isValid then None else Some(t.entries[slot].job)
  }

  /** The slot the next claim after `history` has just taken. */
  function SlotAfter<J>(capacity: nat, history: seq<Event<J>>): (s: nat)
    requires capacity > 0
    ensures s < capacity
  {
    DivId(Claims(history), capacity);
    Claims(history) % capacity
  }

  ghost predicate OnlyClaims<J>(history: seq<Event<J>>, from: nat) {
    forall k :: from <= k < |history| ==> history[k].Claim?
  }

  lemma OnlyClaimsLast<J>(history: seq<Event<J>>, e: Event<J>, from: nat)
    requires e.Claim? && from <= |history|
    ensures OnlyClaims(history + [e], from) <==> OnlyClaims(history, from)
  {
    var now := history + [e];
    assert forall k :: 0 <= k < |history| ==> history[k] == now[k];
  }

  /** Event `p` claimed `slot`; since then nothing was invalidated and fewer than `capacity` claims came. */
  ghost predicate Live<J>(capacity: nat, history: seq<Event<J>>, p: nat, slot: nat)
    requires capacity > 0
  {
    && p < |history|
    && history[p].Claim?
    && SlotAfter(capacity, history[..p + 1]) == slot
    && Claims(history) - Claims(history[..p + 1]) < capacity
    && OnlyClaims(history, p + 1)
  }

  lemma SameSlot(a: nat, d: nat, p: nat)
    requires p > 0 && d <= p
    ensures (a + d) % p == a % p <==> d == 0 || d == p
  {
    DivId(a, p);
    var q, r := a / p, a % p;
    if r + d < p {
      ModIs(a + d, q, r + d, p);
    } else {
      MulAdd(q, 1, p);
      ModIs(a + d, q + 1, r + d - p, p);
    }
  }

  lemma {:induction false} CurrentSlot<J>(capacity: nat, zero: J, history: seq<Event<J>>)
    requires capacity > 0
    ensures Run(capacity, zero, history).current == SlotAfter(capacity, history)
  {
    if history == [] {
      ModIs(0, 0, 0, capacity);
    } else {
      var past := history[..|history| - 1];
      CurrentSlot(capacity, zero, past);
      NextMod(Claims(past), Claims(past) % capacity, capacity);
    }
  }

  lemma {:induction false} ClaimsGrow<J>(history: seq<Event<J>>, n: nat)
    requires n <= |history|
    ensures Claims(history[..n]) <= Claims(history)
  {
    if n == |history| {
      assert history[..n] == history;
    } else {
      var past := history[..|history| - 1];
      assert past[..n] == history[..n];
      ClaimsGrow(past, n);
    }
  }

  /** Claims are counted from the left: a claimed event itself is one. */
  lemma LiveBefore<J>(capacity: nat, history: seq<Event<J>>, job: J, p: nat, slot: nat)
    requires capacity > 0 && slot < capacity
    requires slot != SlotAfter(capacity, history + [Claim(job)])
    ensures Live(capacity, history + [Claim(job)], p, slot) <==> Live(capacity, history, p, slot)
  {
    hide Claims, OnlyClaims;
    var now := history + [Claim(job)];
    ClaimsLast(history, Claim(job));
    if p < |history| {
      assert now[..p + 1] == history[..p + 1];
      ClaimsGrow(history, p + 1);
      OnlyClaimsLast(history, Claim(job), p + 1);
      var a, d := Claims(history[..p + 1]), Claims(history) - Claims(history[..p + 1]);
      if d < capacity {
        SameSlot(a, d + 1, capacity);
        assert Claims(now) == a + (d + 1);
      }
    } else if p == |history| {
      assert now[..p + 1] == now;
    }
  }

  lemma ClaimsLast<J>(history: seq<Event<J>>, e: Event<J>)
    ensures Claims(history + [e]) == Claims(history) + if e.Claim? then 1 else 0
  {
    assert (history + [e])[..|history|] == history;
  }

  lemma NoneLeft<J>(history: seq<Event<J>>)
    ensures OnlyClaims(history, |history|)
  {
  }

  /** In the slot just taken, no earlier claim is live. */
  lemma LiveNow<J>(capacity: nat, history: seq<Event<J>>, job: J, p: nat)
    requires capacity > 0
    ensures var now := history + [Claim(job)];
      Live(capacity, now, p, SlotAfter(capacity, now)) <==> p == |history|
  {
    hide Claims, OnlyClaims;
    NoneLeft(history + [Claim(job)]);
    var now := history + [Claim(job)];
    ClaimsLast(history, Claim(job));
    if p < |history| {
      assert now[..p + 1] == history[..p + 1];
      ClaimsGrow(history, p + 1);
      OnlyClaimsLast(history, Claim(job), p + 1);
      var a, d := Claims(history[..p + 1]), Claims(now) - Claims(history[..p + 1]);
      if d <= capacity {
        SameSlot(a, d, capacity);
      }
    } else if p == |history| {
      assert now[..p + 1] == now;
    }
  }

  lemma NothingLive<J>(capacity: nat, history: seq<Event<J>>, slot: nat)
    requires capacity > 0
    requires history == [] || history[|history| - 1].InvalidateAll?
    ensures forall p: nat :: !Live(capacity, history, p, slot)
  {
    hide Claims;
    if history != [] {
      forall p: nat ensures !Live(capacity, history, p, slot) {
        assert p < |history| ==> !history[|history| - 1].Claim?;
      }
    }
  }

  ghost predicate Answers<J>(capacity: nat, history: seq<Event<J>>, slot: nat, r: Option<J>)
    requires capacity > 0
  {
    && (r.Some? <==> exists p: nat :: Live(capacity, history, p, slot))
    && forall p: nat :: Live(capacity, history, p, slot) ==>
         p < |history| && history[p].Claim? && r == Some(history[p].job)
  }

  lemma AnswersClaim<J>(capacity: nat, past: seq<Event<J>>, job: J, slot: nat, r: Option<J>)
    requires capacity > 0 && slot < capacity
    requires var now := past + [Claim(job)];
      if slot == SlotAfter(capacity, now) then r == Some(job) else Answers(capacity, past, slot, r)
    ensures Answers(capacity, past + [Claim(job)], slot, r)
  {
    hide Live, Claims;
    var now := past + [Claim(job)];
    if slot == SlotAfter(capacity, now) {
      forall p: nat ensures Live(capacity, now, p, slot) <==> p == |past| {
        LiveNow(capacity, past, job, p);
      }
      assert now[|past|] == Claim(job);
      assert Live(capacity, now, |past|, slot);
    } else {
      forall p: nat ensures Live(capacity, now, p, slot) <==> Live(capacity, past, p, slot) {
        LiveBefore(capacity, past, job, p, slot);
      }
      forall p: nat | Live(capacity, now, p, slot) ensures p < |now| && now[p].Claim? && r == Some(now[p].job) {
        InPast(capacity, past, p, slot);
        assert now[p] == past[p];
      }
    }
  }

  lemma InPast<J>(capacity: nat, history: seq<Event<J>>, p: nat, slot: nat)
    requires capacity > 0 && Live(capacity, history, p, slot)
    ensures p < |history| && history[p].Claim?
  {
  }

  /** A slot answers exactly when some claim of it is live, and then with that claim's job. */
  lemma {:induction false} Retained<J>(capacity: nat, zero: J, history: seq<Event<J>>, slot: nat)
    requires capacity > 0 && slot < capacity
    ensures Answers(capacity, history, slot, Lookup(Run(capacity, zero, history), slot))
  {
    hide Live, Claims, SlotAfter;
    if history == [] || history[|history| - 1].InvalidateAll? {
      NothingLive(capacity, history, slot);
    } else {
      hide Answers;
      var past := history[..|history| - 1];
      assert history == past + [history[|history| - 1]];
      Retained(capacity, zero, past, slot);
      CurrentSlot(capacity, zero, history);
      AnswersClaim(capacity, past, history[|history| - 1].job, slot, Lookup(Run(capacity, zero, history), slot));
    }
  }
}
