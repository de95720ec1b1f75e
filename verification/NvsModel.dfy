/** The write-behind settings cache as interleaved atomic sections: setters under the update
    mutex, the bounded queue, and the persisting task. Any number of threads may call setters;
    a step names the thread that takes it. */
module NvsModel {
  import opened Wrappers
  import opened NvsKeys

  const QUEUE_CAPACITY: nat := 50

  type Slot = (nat, nat)

  datatype Entry = EStr(s: string) | EU16(n: nat) | EI32(i: int) | EU64(m: nat)

  type Flash = map<string, Entry>

  datatype Update = Update(key: nat, index: nat, value: Value)

  /** Where the holder of the update mutex is. */
  datatype Phase =
    | Comparing(u: Update)   // the cache has not been looked at yet
    | Replacing(u: Update)   // a string that differs, copied but not yet stored
    | Sending(u: Update)     // stored in the cache, not yet queued
    | Releasing              // queued

  datatype Holder = Holder(thread: nat, phase: Phase)

  datatype State = State(
    cache: map<Slot, Value>,
    isSet: set<nat>,
    holder: Option<Holder>,
    queue: seq<Update>,
    inFlight: Option<Update>,
    flash: Flash)

  // ---------------------------------------------------------------- flash

  function EntryOf(v: Value): Entry {
    match v
    case StrV(s) => EStr(s)
    case U16V(n) => EU16(n)
    case I32V(i) => EI32(i)
    case U64V(m) => EU64(m)
    case BoolV(b) => EU16(if b then 1 else 0)
  }

  /** What `nvs_task` does with one update. */
  function Persisted(table: Table, flash: Flash, u: Update): Flash {
    if u.key < |table| && table[u.key].kind == u.value.Kind() then
      flash[KeyName(table[u.key], u.index) := EntryOf(u.value)]
    else flash
  }

  function Replay(table: Table, flash: Flash, us: seq<Update>): Flash {
    if us == [] then flash
    else Persisted(table, Replay(table, flash, us[..|us| - 1]), us[|us| - 1])
  }

  /** The value the load loop finds for a key, if it accepts the entry: a string must not be empty. */
  function Found(kind: Kind, flash: Flash, key: string): Option<Value> {
    if key !in flash then None
    else
      match (kind, flash[key])
      case (Str, EStr(s)) => if |s| > 0 then Some(StrV(s)) else None
      case (U16, EU16(n)) => Some(U16V(n))
      case (I32, EI32(i)) => Some(I32V(i))
      case (U64, EU64(m)) => Some(U64V(m))
      case (Bool, EU16(n)) => Some(BoolV(n != 0))
      case _ => None
  }

  /** What the load loop accepts: what was written, unless it is the empty string, and for a bool any number. */
  lemma FoundMeans(kind: Kind, flash: Flash, key: string, v: Value)
    ensures Found(kind, flash, key) == Some(v)
       <==> v.Kind() == kind && v != StrV("") && key in flash
            && (flash[key] == EntryOf(v) || (v == BoolV(true) && flash[key].EU16? && flash[key].n > 0))
  {
  }

  function FoundAt(table: Table, flash: Flash, k: nat, i: nat): Option<Value>
    requires IsSlot(table, k, i)
  {
    Found(table[k].kind, flash, KeyName(table[k], i))
  }

  /** The value of a slot after the load loop. */
  function Loaded(table: Table, flash: Flash, k: nat, i: nat): Value
    requires IsSlot(table, k, i)
  {
    var f := FoundAt(table, flash, k, i);
    if f.Some? then f.value else table[k].default
  }

  /** The `is_set` flag of a setting after the load loop. */
  ghost predicate LoadedSet(table: Table, flash: Flash, k: nat)
    requires k < |table|
  {
    exists i: nat :: IsSlot(table, k, i) && FoundAt(table, flash, k, i).Some?
  }

  // ---------------------------------------------------------------- the steps

  /** The guards a setter checks before taking the mutex. */
  predicate Accepts(table: Table, u: Update) {
    u.key < |table| && table[u.key].kind == u.value.Kind()
    && (u.index == 0 || (u.value.StrV? && u.index < table[u.key].arraySize))
  }

  datatype Step =
    | Call(thread: nat, u: Update)
    | Compare(thread: nat)
    | Replace(thread: nat)
    | Send(thread: nat)
    | Release(thread: nat)
    | Receive
    | Persist

  predicate Holds(s: State, thread: nat) {
    s.holder.Some? && s.holder.value.thread == thread
  }

  ghost predicate Enabled(table: Table, s: State, a: Step) {
    match a
    case Call(t, u) => s.holder.None?
    case Compare(t) => Holds(s, t) && s.holder.value.phase.Comparing?
    case Replace(t) => Holds(s, t) && s.holder.value.phase.Replacing?
    case Send(t) => Holds(s, t) && s.holder.value.phase.Sending? && |s.queue| < QUEUE_CAPACITY
    case Release(t) => Holds(s, t) && s.holder.value.phase.Releasing?
    case Receive => s.inFlight.None? && s.queue != []
    case Persist => s.inFlight.Some?
  }

  function Stored(s: State, u: Update): State {
    s.(cache := s.cache[(u.key, u.index) := u.value], isSet := s.isSet + {u.key})
  }

  function At(s: State, thread: nat, phase: Phase): State {
    s.(holder := Some(Holder(thread, phase)))
  }

  predicate Same(s: State, u: Update) {
    (u.key, u.index) in s.cache && s.cache[(u.key, u.index)] == u.value && u.key in s.isSet
  }

  ghost function Next(table: Table, s: State, a: Step): State
    requires Enabled(table, s, a)
  {
    match a
    case Call(t, u) => if Accepts(table, u) then At(s, t, Comparing(u)) else s
    case Compare(t) =>
      var u := s.holder.value.phase.u;
      if Same(s, u) then s.(holder := None)
      else if u.value.StrV? then At(s, t, Replacing(u))
      else At(Stored(s, u), t, Sending(u))
    case Replace(t) => var u := s.holder.value.phase.u; At(Stored(s, u), t, Sending(u))
    case Send(t) => At(s.(queue := s.queue + [s.holder.value.phase.u]), t, Releasing)
    case Release(t) => s.(holder := None)
    case Receive => s.(inFlight := Some(s.queue[0]), queue := s.queue[1..])
    case Persist => s.(flash := Persisted(table, s.flash, s.inFlight.value), inFlight := None)
  }

  /** The state after `nvs_config_init` on `flash`. */
  ghost predicate Initial(table: Table, s: State) {
    s.holder == None && s.queue == [] && s.inFlight == None && Agrees(table, s, s.flash)
  }

  /** Running the load loop on `flash` gives the cache and the flags of `s`. */
  ghost predicate Agrees(table: Table, s: State, flash: Flash) {
    (forall k: nat, i: nat :: (k, i) in s.cache <==> IsSlot(table, k, i))
    && (forall k: nat, i: nat :: IsSlot(table, k, i) ==> s.cache[(k, i)] == Loaded(table, flash, k, i))
    && (forall k :: k in s.isSet ==> k < |table|)
    && (forall k: nat :: k < |table| ==> (k in s.isSet <==> LoadedSet(table, flash, k)))
  }

  ghost predicate Run(table: Table, trace: seq<State>, steps: seq<Step>) {
    |trace| == |steps| + 1 && Initial(table, trace[0])
    && forall i :: 0 <= i < |steps| ==>
         Enabled(table, trace[i], steps[i]) && trace[i + 1] == Next(table, trace[i], steps[i])
  }

  lemma RunStarts(table: Table, s: State)
    requires Initial(table, s)
    ensures Run(table, [s], [])
  {
  }

  lemma RunExtends(table: Table, trace: seq<State>, steps: seq<Step>, a: Step)
    requires Run(table, trace, steps) && Enabled(table, trace[|steps|], a)
    ensures Run(table, trace + [Next(table, trace[|steps|], a)], steps + [a])
  {
    hide Initial, Enabled, Next;
  }

  // ---------------------------------------------------------------- the agreement

  /** Updates on their way to flash, oldest first. */
  function Pending(s: State): seq<Update> {
    (if s.inFlight.Some? then [s.inFlight.value] else []) + s.queue
    + (if s.holder.Some? && s.holder.value.phase.Sending? then [s.holder.value.phase.u] else [])
  }

  /** Flash once everything on its way has been written. */
  function Settled(table: Table, s: State): Flash {
    Replay(table, s.flash, Pending(s))
  }

  /** A slot reads back from flash, except that an empty string comes back as the default. */
  ghost predicate SlotAgrees(table: Table, s: State, flash: Flash, k: nat, i: nat)
    requires IsSlot(table, k, i)
  {
    (k, i) in s.cache && s.cache[(k, i)].Kind() == table[k].kind
    && (s.cache[(k, i)] == Loaded(table, flash, k, i)
        || (s.cache[(k, i)] == StrV("") && FoundAt(table, flash, k, i) == None))
  }

  ghost predicate HasEmpty(table: Table, s: State, k: nat) {
    exists i: nat :: IsSlot(table, k, i) && (k, i) in s.cache && s.cache[(k, i)] == StrV("")
  }

  ghost predicate FlagAgrees(table: Table, s: State, flash: Flash, k: nat)
    requires k < |table|
  {
    (LoadedSet(table, flash, k) ==> k in s.isSet)
    && (k in s.isSet ==> LoadedSet(table, flash, k) || HasEmpty(table, s, k))
  }

  ghost predicate Consistent(table: Table, s: State, flash: Flash) {
    (forall k: nat, i: nat :: (k, i) in s.cache ==> IsSlot(table, k, i))
    && (forall k :: k in s.isSet ==> k < |table|)
    && (forall k: nat, i: nat :: IsSlot(table, k, i) ==> SlotAgrees(table, s, flash, k, i))
    && (forall k: nat :: k < |table| ==> FlagAgrees(table, s, flash, k))
  }

  /** The update the mutex holder works on is one its guards let through. */
  ghost predicate HolderAccepted(table: Table, s: State) {
    s.holder.Some? && !s.holder.value.phase.Releasing? ==> Accepts(table, s.holder.value.phase.u)
  }

  ghost predicate Inv(table: Table, s: State) {
    HolderAccepted(table, s) && Consistent(table, s, Settled(table, s))
  }

  lemma {:induction false} ReplayFirst(table: Table, flash: Flash, u: Update, us: seq<Update>)
    ensures Replay(table, flash, [u] + us) == Replay(table, Persisted(table, flash, u), us)
  {
    hide Persisted;
    if us == [] {
      assert [u] + us == [u] && [u][..0] == [];
    } else {
      assert ([u] + us)[..|us|] == [u] + us[..|us| - 1];
      ReplayFirst(table, flash, u, us[..|us| - 1]);
    }
  }

  lemma ReplayLast(table: Table, flash: Flash, us: seq<Update>, u: Update)
    ensures Replay(table, flash, us + [u]) == Persisted(table, Replay(table, flash, us), u)
  {
    hide Persisted;
    assert (us + [u])[..|us|] == us;
  }

  /** Storing an update in the cache and appending it to what is on its way keep the two together. */
  lemma StoreConsistent(table: Table, s: State, flash: Flash, u: Update)
    requires WellFormed(table) && Accepts(table, u) && Consistent(table, s, flash)
    ensures Consistent(table, Stored(s, u), Persisted(table, flash, u))
  {
    hide KeyName, WellFormed;
    var t, f := Stored(s, u), Persisted(table, flash, u);
    assert IsSlot(table, u.key, u.index);
    forall k: nat, i: nat | IsSlot(table, k, i)
      ensures (k, i) != (u.key, u.index) ==> FoundAt(table, f, k, i) == FoundAt(table, flash, k, i)
      ensures SlotAgrees(table, t, f, k, i)
    {
      assert SlotAgrees(table, s, flash, k, i);
      if (k, i) != (u.key, u.index) {
        OtherKey(table, u.key, u.index, k, i);
      }
    }
    forall k: nat | k < |table|
      ensures FlagAgrees(table, t, f, k)
    {
      assert FlagAgrees(table, s, flash, k);
      if k == u.key {
        assert FoundAt(table, f, k, u.index).Some? || t.cache[(k, u.index)] == StrV("");
      } else {
        FlagUntouched(table, s, t, flash, f, k);
      }
    }
  }

  lemma OtherKey(table: Table, k: nat, i: nat, l: nat, j: nat)
    requires WellFormed(table) && IsSlot(table, k, i) && IsSlot(table, l, j) && (k, i) != (l, j)
    ensures KeyName(table[k], i) != KeyName(table[l], j)
  {
    hide KeyName, WellFormed;
    if KeyName(table[k], i) == KeyName(table[l], j) {
      KeysDistinct(table, k, i, l, j);
    }
  }

  lemma FlagUntouched(table: Table, s: State, t: State, flash: Flash, f: Flash, k: nat)
    requires k < |table| && FlagAgrees(table, s, flash, k)
    requires k in s.isSet <==> k in t.isSet
    requires forall i: nat :: IsSlot(table, k, i) ==> FoundAt(table, f, k, i) == FoundAt(table, flash, k, i)
    requires forall i: nat :: (k, i) in s.cache ==> (k, i) in t.cache && t.cache[(k, i)] == s.cache[(k, i)]
    ensures FlagAgrees(table, t, f, k)
  {
    hide FoundAt;
    if LoadedSet(table, f, k) {
      var i: nat :| IsSlot(table, k, i) && FoundAt(table, f, k, i).Some?;
      assert FoundAt(table, flash, k, i).Some?;
    }
    if k in s.isSet {
      if LoadedSet(table, flash, k) {
        var i: nat :| IsSlot(table, k, i) && FoundAt(table, flash, k, i).Some?;
        assert FoundAt(table, f, k, i).Some?;
      } else {
        var i: nat :| IsSlot(table, k, i) && (k, i) in s.cache && s.cache[(k, i)] == StrV("");
        assert t.cache[(k, i)] == StrV("");
      }
    }
  }

  // ---------------------------------------------------------------- every step keeps the invariant

  lemma InitialInv(table: Table, s: State)
    requires WellFormed(table) && Initial(table, s)
    ensures Inv(table, s)
  {
    hide KeyName;
    assert Settled(table, s) == s.flash;
    forall k: nat, i: nat | IsSlot(table, k, i)
      ensures SlotAgrees(table, s, s.flash, k, i)
    {
    }
  }

  /** Only the cache and the flags of the state matter. */
  lemma SameCache(table: Table, s: State, t: State, flash: Flash)
    requires Consistent(table, s, flash) && t.cache == s.cache && t.isSet == s.isSet
    ensures Consistent(table, t, flash)
  {
    hide FoundAt, Loaded, LoadedSet;
    forall k: nat, i: nat | IsSlot(table, k, i)
      ensures SlotAgrees(table, t, flash, k, i)
    {
      assert SlotAgrees(table, s, flash, k, i);
    }
    forall k: nat | k < |table|
      ensures FlagAgrees(table, t, flash, k)
    {
      assert FlagAgrees(table, s, flash, k);
      assert HasEmpty(table, s, k) == HasEmpty(table, t, k);
    }
  }

  /** The update a step stores in the cache, if it stores one. */
  ghost function StoredBy(table: Table, s: State, a: Step): seq<Update>
    requires Enabled(table, s, a)
  {
    if a.Replace? || (a.Compare? && !Same(s, s.holder.value.phase.u) && !s.holder.value.phase.u.value.StrV?)
    then [s.holder.value.phase.u] else []
  }

  lemma {:induction false} ReplayConcat(table: Table, flash: Flash, a: seq<Update>, b: seq<Update>)
    ensures Replay(table, flash, a + b) == Replay(table, Replay(table, flash, a), b)
  {
    hide Persisted;
    if b == [] {
      assert a + b == a;
    } else {
      assert (a + b)[..|a + b| - 1] == a + b[..|b| - 1];
      ReplayConcat(table, flash, a, b[..|b| - 1]);
    }
  }

  /** What a step does to the updates on their way and to flash. */
  ghost predicate PendingChange(table: Table, s: State, a: Step)
    requires Enabled(table, s, a)
  {
    var t := Next(table, s, a);
    if a.Persist? then
      Pending(s) == [s.inFlight.value] + Pending(t) && StoredBy(table, s, a) == []
      && t.flash == Persisted(table, s.flash, s.inFlight.value)
    else Pending(t) == Pending(s) + StoredBy(table, s, a) && t.flash == s.flash
  }

  lemma PendingSetter(table: Table, s: State, a: Step)
    requires Enabled(table, s, a) && (a.Call? || a.Compare? || a.Replace? || a.Release?)
    ensures PendingChange(table, s, a)
  {
    hide Persisted, Accepts, Same;
  }

  lemma PendingSend(table: Table, s: State, a: Step)
    requires Enabled(table, s, a) && a.Send?
    ensures PendingChange(table, s, a)
  {
    hide Persisted, Accepts, Same;
  }

  lemma PendingTask(table: Table, s: State, a: Step)
    requires Enabled(table, s, a) && (a.Receive? || a.Persist?)
    ensures PendingChange(table, s, a)
  {
    hide Persisted, Accepts, Same;
    if a.Receive? {
      assert s.queue == [s.queue[0]] + s.queue[1..];
    }
  }

  lemma PendingStep(table: Table, s: State, a: Step)
    requires Enabled(table, s, a)
    ensures PendingChange(table, s, a)
  {
    hide PendingChange, Enabled;
    if a.Send? {
      PendingSend(table, s, a);
    } else if a.Receive? || a.Persist? {
      PendingTask(table, s, a);
    } else {
      PendingSetter(table, s, a);
    }
  }

  /** The cache changes by exactly the update the step stores. */
  lemma CacheStep(table: Table, s: State, a: Step)
    requires Enabled(table, s, a)
    ensures var t, us := Next(table, s, a), StoredBy(table, s, a);
      if us == [] then t.cache == s.cache && t.isSet == s.isSet
      else
        s.holder.Some? && !s.holder.value.phase.Releasing? && us == [s.holder.value.phase.u]
        && t.cache == Stored(s, us[0]).cache && t.isSet == Stored(s, us[0]).isSet
  {
    hide Persisted, Accepts, Same;
  }

  /** What everything on its way settles to changes by the same update. */
  lemma SettledStep(table: Table, s: State, a: Step)
    requires Enabled(table, s, a)
    ensures Settled(table, Next(table, s, a)) == Replay(table, Settled(table, s), StoredBy(table, s, a))
  {
    hide Next, Enabled, Pending, Persisted, StoredBy, Replay;
    var t := Next(table, s, a);
    PendingStep(table, s, a);
    if a.Persist? {
      InFlight(table, s, a);
      ReplayFirst(table, s.flash, s.inFlight.value, Pending(t));
      ReplayNothing(table, Settled(table, s));
    } else {
      ReplayConcat(table, s.flash, Pending(s), StoredBy(table, s, a));
    }
  }

  lemma InFlight(table: Table, s: State, a: Step)
    requires Enabled(table, s, a) && a.Persist?
    ensures s.inFlight.Some?
  {
  }

  lemma ReplayOne(table: Table, flash: Flash, u: Update)
    ensures Replay(table, flash, [u]) == Persisted(table, flash, u)
  {
    assert [u][..0] == [];
  }

  lemma HolderStep(table: Table, s: State, a: Step)
    requires HolderAccepted(table, s) && Enabled(table, s, a)
    ensures HolderAccepted(table, Next(table, s, a))
  {
    hide Persisted, Accepts, Same;
  }

  lemma NextInv(table: Table, s: State, a: Step)
    requires WellFormed(table) && Inv(table, s) && Enabled(table, s, a)
    ensures Inv(table, Next(table, s, a))
  {
    hide Settled, Consistent, WellFormed, Persisted, Next, Enabled, StoredBy, Replay, Accepts;
    var t, us := Next(table, s, a), StoredBy(table, s, a);
    SettledStep(table, s, a);
    CacheStep(table, s, a);
    HolderStep(table, s, a);
    if us == [] {
      ReplayNothing(table, Settled(table, s));
      SameCache(table, s, t, Settled(table, t));
    } else {
      ReplayOne(table, Settled(table, s), us[0]);
      StoreConsistent(table, s, Settled(table, s), us[0]);
      SameCache(table, Stored(s, us[0]), t, Settled(table, t));
    }
  }

  lemma {:induction false} RunInv(table: Table, trace: seq<State>, steps: seq<Step>, n: nat)
    requires WellFormed(table) && Run(table, trace, steps) && n <= |steps|
    ensures Inv(table, trace[n])
  {
    hide Inv, Next, Enabled, Initial, WellFormed;
    if n == 0 {
      InitialInv(table, trace[0]);
    } else {
      RunInv(table, trace, steps, n - 1);
      NextInv(table, trace[n - 1], steps[n - 1]);
    }
  }

  // ---------------------------------------------------------------- when cache and flash agree

  /** A setting whose empty strings, if any, would not be noticed after a restart. */
  ghost predicate Restorable(table: Table, s: State, k: nat)
    requires k < |table|
  {
    table[k].kind.Str? ==>
      if table[k].default == StrV("") then
        k in s.isSet ==> exists i: nat :: IsSlot(table, k, i) && (k, i) in s.cache && s.cache[(k, i)] != StrV("")
      else !HasEmpty(table, s, k)
  }

  lemma AgreesIffRestorable(table: Table, s: State, flash: Flash)
    requires WellFormed(table) && Consistent(table, s, flash)
    ensures Agrees(table, s, flash) <==> forall k: nat :: k < |table| ==> Restorable(table, s, k)
  {
    hide KeyName, FullName, NamesApart;
    forall k: nat | k < |table|
      ensures Restorable(table, s, k) <==> SettingAgrees(table, s, flash, k)
    {
      SettingAgreesIff(table, s, flash, k);
    }
    if forall k: nat :: k < |table| ==> Restorable(table, s, k) {
      forall k: nat, i: nat | IsSlot(table, k, i)
        ensures s.cache[(k, i)] == Loaded(table, flash, k, i)
      {
        assert SettingAgrees(table, s, flash, k);
      }
      forall k: nat | k < |table|
        ensures k in s.isSet <==> LoadedSet(table, flash, k)
      {
        assert SettingAgrees(table, s, flash, k);
      }
      forall k: nat, i: nat | IsSlot(table, k, i)
        ensures (k, i) in s.cache
      {
        assert SlotAgrees(table, s, flash, k, i);
      }
    }
    if Agrees(table, s, flash) {
      forall k: nat | k < |table|
        ensures Restorable(table, s, k)
      {
        assert SettingAgrees(table, s, flash, k);
      }
    }
  }

  ghost predicate SettingAgrees(table: Table, s: State, flash: Flash, k: nat)
    requires k < |table|
  {
    (forall i: nat :: IsSlot(table, k, i) ==> (k, i) in s.cache && s.cache[(k, i)] == Loaded(table, flash, k, i))
    && (k in s.isSet <==> LoadedSet(table, flash, k))
  }

  lemma SettingAgreesIff(table: Table, s: State, flash: Flash, k: nat)
    requires k < |table| && table[k].default.Kind() == table[k].kind && Consistent(table, s, flash)
    ensures Restorable(table, s, k) <==> SettingAgrees(table, s, flash, k)
  {
    hide KeyName;
    assert FlagAgrees(table, s, flash, k);
    forall i: nat | IsSlot(table, k, i)
      ensures SlotAgrees(table, s, flash, k, i)
      ensures FoundAt(table, flash, k, i) != Some(StrV(""))
    {
      assert (forall k: nat, i: nat :: IsSlot(table, k, i) ==> SlotAgrees(table, s, flash, k, i));
    }
    if !table[k].kind.Str? {
      assert !HasEmpty(table, s, k) by {
        forall i: nat | IsSlot(table, k, i)
          ensures s.cache[(k, i)] != StrV("")
        {
          assert SlotAgrees(table, s, flash, k, i);
        }
      }
    } else if table[k].default == StrV("") {
      EmptyDefault(table, s, flash, k);
    } else {
      NonemptyDefault(table, s, flash, k);
    }
  }

  lemma EmptyDefault(table: Table, s: State, flash: Flash, k: nat)
    requires k < |table| && table[k].kind.Str? && table[k].default == StrV("")
    requires FlagAgrees(table, s, flash, k)
    requires forall i: nat :: IsSlot(table, k, i) ==> SlotAgrees(table, s, flash, k, i)
    requires forall i: nat :: IsSlot(table, k, i) ==> FoundAt(table, flash, k, i) != Some(StrV(""))
    ensures Restorable(table, s, k) <==> SettingAgrees(table, s, flash, k)
  {
    hide FoundAt;
    forall i: nat | IsSlot(table, k, i)
      ensures s.cache[(k, i)] == Loaded(table, flash, k, i)
      ensures s.cache[(k, i)] != StrV("") <==> FoundAt(table, flash, k, i).Some?
    {
      assert SlotAgrees(table, s, flash, k, i);
    }
    if LoadedSet(table, flash, k) {
      var i: nat :| IsSlot(table, k, i) && FoundAt(table, flash, k, i).Some?;
      assert s.cache[(k, i)] != StrV("");
    }
    if i: nat :| IsSlot(table, k, i) && (k, i) in s.cache && s.cache[(k, i)] != StrV("") {
      assert FoundAt(table, flash, k, i).Some?;
    }
  }

  lemma NonemptyDefault(table: Table, s: State, flash: Flash, k: nat)
    requires k < |table| && table[k].kind.Str? && table[k].default != StrV("")
    requires FlagAgrees(table, s, flash, k)
    requires forall i: nat :: IsSlot(table, k, i) ==> SlotAgrees(table, s, flash, k, i)
    requires forall i: nat :: IsSlot(table, k, i) ==> FoundAt(table, flash, k, i) != Some(StrV(""))
    ensures Restorable(table, s, k) <==> SettingAgrees(table, s, flash, k)
  {
    hide FoundAt;
    forall i: nat | IsSlot(table, k, i)
      ensures (k, i) in s.cache && (s.cache[(k, i)] != StrV("") <==> s.cache[(k, i)] == Loaded(table, flash, k, i))
    {
      assert SlotAgrees(table, s, flash, k, i);
    }
  }

  /** In every reachable state, replaying what is on its way and running the load loop gives back
      the cache and the flags exactly when every setting is restorable. */
  lemma CacheAgreesWithFlash(table: Table, trace: seq<State>, steps: seq<Step>, n: nat)
    requires WellFormed(table) && Run(table, trace, steps) && n <= |steps|
    ensures var s := trace[n];
      Agrees(table, s, Settled(table, s)) <==> forall k: nat :: k < |table| ==> Restorable(table, s, k)
  {
    hide Agrees, Restorable, WellFormed, Settled, Consistent;
    RunInv(table, trace, steps, n);
    AgreesIffRestorable(table, trace[n], Settled(table, trace[n]));
  }

  // ---------------------------------------------------------------- runs without empty strings

  ghost predicate SetsNoEmpty(steps: seq<Step>) {
    forall i :: 0 <= i < |steps| && steps[i].Call? ==> steps[i].u.value != StrV("")
  }

  /** No empty string is about to be stored, and every set string setting holds a nonempty one. */
  ghost predicate NoEmpty(table: Table, s: State) {
    (s.holder.Some? && !s.holder.value.phase.Releasing? ==> s.holder.value.phase.u.value != StrV(""))
    && forall k: nat :: k < |table| ==> Restorable(table, s, k)
  }

  lemma StoreRestorable(table: Table, s: State, u: Update, k: nat)
    requires k < |table| && Restorable(table, s, k) && Accepts(table, u) && u.value != StrV("")
    ensures Restorable(table, Stored(s, u), k)
  {
    var t := Stored(s, u);
    if k == u.key {
      assert IsSlot(table, k, u.index) && t.cache[(k, u.index)] != StrV("");
      if HasEmpty(table, t, k) {
        var i: nat :| IsSlot(table, k, i) && (k, i) in t.cache && t.cache[(k, i)] == StrV("");
        assert s.cache[(k, i)] == StrV("");
      }
    } else {
      assert HasEmpty(table, t, k) ==> HasEmpty(table, s, k) by {
        if HasEmpty(table, t, k) {
          var i: nat :| IsSlot(table, k, i) && (k, i) in t.cache && t.cache[(k, i)] == StrV("");
          assert s.cache[(k, i)] == StrV("");
        }
      }
      if i: nat :| IsSlot(table, k, i) && (k, i) in s.cache && s.cache[(k, i)] != StrV("") {
        assert t.cache[(k, i)] != StrV("");
      }
    }
  }

  lemma RestorableSame(table: Table, s: State, t: State, k: nat)
    requires k < |table| && Restorable(table, s, k) && t.cache == s.cache && t.isSet == s.isSet
    ensures Restorable(table, t, k)
  {
    assert HasEmpty(table, s, k) == HasEmpty(table, t, k);
  }

  lemma NoEmptyStep(table: Table, s: State, a: Step)
    requires Enabled(table, s, a) && HolderAccepted(table, s) && NoEmpty(table, s)
    requires a.Call? ==> a.u.value != StrV("")
    ensures NoEmpty(table, Next(table, s, a))
  {
    hide Restorable, Accepts, Persisted;
    var t := Next(table, s, a);
    forall k: nat | k < |table|
      ensures Restorable(table, t, k)
    {
      if t.cache == s.cache && t.isSet == s.isSet {
        RestorableSame(table, s, t, k);
      } else {
        var u := s.holder.value.phase.u;
        StoreRestorable(table, s, u, k);
        RestorableSame(table, Stored(s, u), t, k);
      }
    }
  }

  lemma {:induction false} NoEmptyRun(table: Table, trace: seq<State>, steps: seq<Step>, n: nat)
    requires WellFormed(table) && Run(table, trace, steps) && n <= |steps| && SetsNoEmpty(steps)
    ensures NoEmpty(table, trace[n])
  {
    hide Inv, Next, Enabled, WellFormed, Restorable;
    if n == 0 {
      InitialInv(table, trace[0]);
      InitialRestorable(table, trace[0]);
    } else {
      NoEmptyRun(table, trace, steps, n - 1);
      RunInv(table, trace, steps, n - 1);
      InvHolder(table, trace[n - 1]);
      NoEmptyStep(table, trace[n - 1], steps[n - 1]);
    }
  }

  lemma InvHolder(table: Table, s: State)
    requires Inv(table, s)
    ensures HolderAccepted(table, s)
  {}

  lemma InitialRestorable(table: Table, s: State)
    requires WellFormed(table) && Initial(table, s)
    ensures forall k: nat :: k < |table| ==> Restorable(table, s, k)
  {
    hide Restorable, WellFormed, Consistent, Agrees;
    InitialInv(table, s);
    assert Settled(table, s) == s.flash;
    InvConsistent(table, s);
    AgreesIffRestorable(table, s, s.flash);
  }

  lemma InvConsistent(table: Table, s: State)
    requires Inv(table, s)
    ensures Consistent(table, s, Settled(table, s))
  {}

  /** As long as no setter is given an empty string, cache and flash agree in every reachable
      state, inside a setter's section as well as between them. */
  lemma AlwaysAgrees(table: Table, trace: seq<State>, steps: seq<Step>, n: nat)
    requires WellFormed(table) && Run(table, trace, steps) && n <= |steps| && SetsNoEmpty(steps)
    ensures Agrees(table, trace[n], Settled(table, trace[n]))
  {
    hide Agrees, Restorable, WellFormed, Settled;
    NoEmptyRun(table, trace, steps, n);
    CacheAgreesWithFlash(table, trace, steps, n);
  }

  // ---------------------------------------------------------------- what a setter achieves

  /** What the source asks of a setter's arguments: a known key, its type, and an index only into string arrays. */
  predicate GoodArguments(table: Table, u: Update) {
    u.key < |table| && table[u.key].kind == u.value.Kind()
    && (u.index == 0 || (u.value.StrV? && u.index < table[u.key].arraySize))
  }

  /** The cache holds the value of `u`, marked as set. */
  ghost predicate Has(s: State, u: Update) {
    (u.key, u.index) in s.cache && s.cache[(u.key, u.index)] == u.value && u.key in s.isSet
  }

  /** The call of `u` by `thread` is under way; once it is past the cache, the cache has the value. */
  ghost predicate Working(s: State, thread: nat, u: Update) {
    Holds(s, thread)
    && match s.holder.value.phase
       case Comparing(v) => v == u
       case Replacing(v) => v == u
       case Sending(v) => v == u && Has(s, u)
       case Releasing => Has(s, u)
  }

  lemma WorkingStep(table: Table, s: State, a: Step, thread: nat, u: Update)
    requires Working(s, thread, u) && Enabled(table, s, a)
    ensures var t := Next(table, s, a);
      if t.holder.Some? then Working(t, thread, u) else Has(t, u)
  {
    hide Persisted;
  }

  /** From the call at `i` until the mutex is next free. */
  ghost predicate Busy(trace: seq<State>, i: nat, j: nat)
    requires j <= |trace|
  {
    forall k :: i < k < j ==> trace[k].holder.Some?
  }

  lemma {:induction false} WorkingAt(table: Table, trace: seq<State>, steps: seq<Step>, i: nat, j: nat,
                                     thread: nat, u: Update)
    requires Run(table, trace, steps) && i < j <= |steps|
    requires steps[i] == Call(thread, u) && GoodArguments(table, u) && Busy(trace, i, j)
    ensures if trace[j].holder.Some? then Working(trace[j], thread, u) else Has(trace[j], u)
  {
    hide Next, Enabled, Working, Has;
    if j == i + 1 {
      CallAccepted(table, trace[i], thread, u);
    } else {
      assert trace[j - 1].holder.Some?;
      WorkingAt(table, trace, steps, i, j - 1, thread, u);
      WorkingStep(table, trace[j - 1], steps[j - 1], thread, u);
    }
  }

  lemma CallAccepted(table: Table, s: State, thread: nat, u: Update)
    requires Enabled(table, s, Call(thread, u)) && GoodArguments(table, u)
    ensures var t := Next(table, s, Call(thread, u)); t.holder.Some? && Working(t, thread, u)
  {
  }

  /** When a setter called with good arguments gives the mutex back, the cache has the new value, marked as set. */
  lemma SetterStores(table: Table, trace: seq<State>, steps: seq<Step>, i: nat, j: nat, thread: nat, u: Update)
    requires Run(table, trace, steps) && i < j <= |steps|
    requires steps[i] == Call(thread, u) && GoodArguments(table, u)
    requires Busy(trace, i, j) && trace[j].holder == None
    ensures Has(trace[j], u)
  {
    hide Next, Enabled, Working, Has;
    WorkingAt(table, trace, steps, i, j, thread, u);
  }

  /** A setter called with bad arguments leaves everything as it was. */
  lemma SetterRefuses(table: Table, trace: seq<State>, steps: seq<Step>, i: nat, thread: nat, u: Update)
    requires Run(table, trace, steps) && i < |steps|
    requires steps[i] == Call(thread, u) && !GoodArguments(table, u)
    ensures trace[i + 1] == trace[i]
  {
  }

  /** A value that was stored because it was new is on its way to flash until it is there: no step but the write
      itself takes an update off the way. */
  lemma SetterPersists(table: Table, s: State, a: Step)
    requires Enabled(table, s, a) && StoredBy(table, s, a) != []
    ensures var t, u := Next(table, s, a), StoredBy(table, s, a)[0];
      Has(t, u) && Pending(t) == Pending(s) + [u]
  {
    hide Pending, Persisted;
    PendingStep(table, s, a);
    CacheStep(table, s, a);
  }

  // ---------------------------------------------------------------- power loss

  ghost function Issued(table: Table, trace: seq<State>, steps: seq<Step>, n: nat): seq<Update>
    requires Run(table, trace, steps) && n <= |steps|
  {
    if n == 0 then [] else Issued(table, trace, steps, n - 1) + StoredBy(table, trace[n - 1], steps[n - 1])
  }

  /** Flash holds a prefix of the updates stored so far; the rest is on its way, in order. */
  lemma {:induction false} FlashIsPrefix(table: Table, trace: seq<State>, steps: seq<Step>, n: nat) returns (m: nat)
    requires Run(table, trace, steps) && n <= |steps|
    ensures var all := Issued(table, trace, steps, n);
      m <= |all| && trace[n].flash == Replay(table, trace[0].flash, all[..m]) && Pending(trace[n]) == all[m..]
  {
    hide Persisted, Pending, StoredBy, Replay;
    m := 0;
    if n == 0 {
      ReplayNothing(table, trace[0].flash);
      InitialPending(table, trace[0]);
    } else {
      var s, a := trace[n - 1], steps[n - 1];
      m := FlashIsPrefix(table, trace, steps, n - 1);
      var before := Issued(table, trace, steps, n - 1);
      var all := Issued(table, trace, steps, n);
      PendingStep(table, s, a);
      assert all[..m] == before[..m];
      if a.Persist? {
        assert before[m] == before[m..][0];
        assert all[..m + 1] == before[..m] + [before[m]];
        assert all[m + 1..] == before[m..][1..];
        ReplayLast(table, trace[0].flash, before[..m], before[m]);
        m := m + 1;
      } else {
        assert all[m..] == before[m..] + StoredBy(table, s, a);
      }
    }
  }

  lemma ReplayNothing(table: Table, flash: Flash)
    ensures Replay(table, flash, []) == flash
  {}

  lemma InitialPending(table: Table, s: State)
    requires Initial(table, s)
    ensures Pending(s) == []
  {}

  /** Every prefix of what was stored was, at some earlier moment, all that had been stored. */
  lemma {:induction false} EarlierMoment(table: Table, trace: seq<State>, steps: seq<Step>, n: nat, m: nat)
    returns (j: nat)
    requires Run(table, trace, steps) && n <= |steps| && m <= |Issued(table, trace, steps, n)|
    ensures j <= n && Issued(table, trace, steps, j) == Issued(table, trace, steps, n)[..m]
  {
    var all := Issued(table, trace, steps, n);
    if m == |all| {
      assert all[..m] == all;
      j := n;
    } else {
      var before := Issued(table, trace, steps, n - 1);
      j := EarlierMoment(table, trace, steps, n - 1, m);
      assert all[..m] == before[..m];
    }
  }

  /** Losing power at any moment and loading again brings back the settings of some earlier
      moment: flash is exactly what that moment's cache had settled to. */
  lemma PowerLoss(table: Table, trace: seq<State>, steps: seq<Step>, n: nat) returns (j: nat)
    requires WellFormed(table) && Run(table, trace, steps) && n <= |steps|
    ensures j <= n && trace[n].flash == Settled(table, trace[j])
    ensures SetsNoEmpty(steps) ==> Agrees(table, trace[j], trace[n].flash)
  {
    hide Agrees, Issued, Replay, WellFormed, Pending;
    var m := FlashIsPrefix(table, trace, steps, n);
    j := EarlierMoment(table, trace, steps, n, m);
    var i := FlashIsPrefix(table, trace, steps, j);
    var all := Issued(table, trace, steps, j);
    ReplayConcat(table, trace[0].flash, all[..i], all[i..]);
    assert all == all[..i] + all[i..];
    if SetsNoEmpty(steps) {
      AlwaysAgrees(table, trace, steps, j);
    }
  }

  // ---------------------------------------------------------------- an empty string

  /** Setting an empty string over a nonempty default does not survive a restart. */
  lemma EmptyStringLost() returns (table: Table, trace: seq<State>, steps: seq<Step>)
    ensures WellFormed(table) && Run(table, trace, steps) && steps != []
    ensures var s := trace[|steps|]; s.holder == None && Pending(s) == [] && !Agrees(table, s, s.flash)
  {
    table := [Setting("hostname", Str, 0, StrV("bitaxe"))];
    trace, steps := EmptyAccepted(table);
    trace, steps := EmptyWritten(table, trace, steps);
    EmptyNotRestored(table, trace[|steps|]);
  }

  /** The setter's part of that run: the cache has the empty string and the update is about to be queued. */
  lemma EmptyAccepted(table: Table) returns (trace: seq<State>, steps: seq<Step>)
    requires table == [Setting("hostname", Str, 0, StrV("bitaxe"))]
    ensures WellFormed(table) && Run(table, trace, steps) && trace[|steps|] == EmptySending()
  {
    hide Run, Initial, WellFormed, KeyName;
    var u := Update(0, 0, StrV(""));
    var s := State(map[(0, 0) := StrV("bitaxe")], {}, None, [], None, map[]);
    EmptyStart(table, s);
    RunStarts(table, s);
    trace, steps := [s], [];
    trace, steps := OneMore(table, trace, steps, Call(0, u), At(s, 0, Comparing(u)));
    trace, steps := OneMore(table, trace, steps, Compare(0), At(s, 0, Replacing(u)));
    trace, steps := OneMore(table, trace, steps, Replace(0), EmptySending());
  }

  function EmptySending(): State {
    var u := Update(0, 0, StrV(""));
    State(map[(0, 0) := StrV("")], {0}, Some(Holder(0, Sending(u))), [], None, map[])
  }

  /** The rest of it: the update is queued, received and written. */
  lemma EmptyWritten(table: Table, trace0: seq<State>, steps0: seq<Step>)
    returns (trace: seq<State>, steps: seq<Step>)
    requires table == [Setting("hostname", Str, 0, StrV("bitaxe"))]
    requires Run(table, trace0, steps0) && trace0[|steps0|] == EmptySending()
    ensures Run(table, trace, steps) && steps != []
    ensures var s := trace[|steps|];
      s.holder == None && Pending(s) == [] && s.cache == map[(0, 0) := StrV("")]
      && s.flash == map["hostname" := EStr("")]
  {
    hide Run, Initial, WellFormed;
    var u := Update(0, 0, StrV(""));
    var s := EmptySending();
    assert s.queue + [u] == [u];
    s := At(s.(queue := [u]), 0, Releasing);
    trace, steps := OneMore(table, trace0, steps0, Send(0), s);
    s := s.(holder := None);
    trace, steps := OneMore(table, trace, steps, Release(0), s);
    assert s.queue[1..] == [];
    s := s.(queue := [], inFlight := Some(u));
    trace, steps := OneMore(table, trace, steps, Receive, s);
    assert KeyName(table[0], 0) == "hostname";
    s := s.(inFlight := None, flash := map["hostname" := EStr("")]);
    trace, steps := OneMore(table, trace, steps, Persist, s);
  }

  lemma OneMore(table: Table, trace: seq<State>, steps: seq<Step>, a: Step, next: State)
    returns (longer: seq<State>, more: seq<Step>)
    requires Run(table, trace, steps) && Enabled(table, trace[|steps|], a)
    requires next == Next(table, trace[|steps|], a)
    ensures more != [] && |longer| == |more| + 1
    ensures Run(table, longer, more) && longer[|more|] == next
  {
    hide Next, Enabled;
    RunExtends(table, trace, steps, a);
    longer, more := trace + [next], steps + [a];
  }

  lemma EmptyNotRestored(table: Table, s: State)
    requires table == [Setting("hostname", Str, 0, StrV("bitaxe"))]
    requires s.flash == map["hostname" := EStr("")] && s.cache == map[(0, 0) := StrV("")]
    ensures !Agrees(table, s, s.flash)
  {
    assert KeyName(table[0], 0) == "hostname";
    assert IsSlot(table, 0, 0);
    assert Loaded(table, s.flash, 0, 0) == StrV("bitaxe");
  }

  lemma EmptyStart(table: Table, s: State)
    requires table == [Setting("hostname", Str, 0, StrV("bitaxe"))]
    requires s == State(map[(0, 0) := StrV("bitaxe")], {}, None, [], None, map[])
    ensures WellFormed(table) && Initial(table, s)
  {
    hide KeyName, Padded;
    forall k: nat, i: nat
      ensures (k, i) in s.cache <==> IsSlot(table, k, i)
    {
    }
  }
}
