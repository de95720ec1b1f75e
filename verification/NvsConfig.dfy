/** The settings cache with its fields updated in place, one method per critical section. Each
    method takes exactly the step of `NvsModel` that it is named for. */
module NvsConfig {
  import opened Wrappers
  import opened NvsKeys
  import opened NvsModel

  class Cache {
    const table: Table
    var values: map<Slot, Value>
    var isSet: set<nat>
    var holder: Option<Holder>
    var queue: seq<Update>
    var inFlight: Option<Update>
    var flash: Flash
    /** What has happened since the start. */
    ghost var trace: seq<NvsModel.State>
    ghost var steps: seq<Step>

    ghost function State(): State
      reads this
    {
      NvsModel.State(values, isSet, holder, queue, inFlight, flash)
    }

    /** The sections taken so far form a run of the model that ends here. */
    ghost predicate Valid()
      reads this
    {
      Run(table, trace, steps) && trace[|steps|] == State()
    }

    ghost method Record(a: Step)
      requires Run(table, trace, steps) && Enabled(table, trace[|steps|], a)
      requires State() == Next(table, trace[|steps|], a)
      modifies this`trace, this`steps
      ensures Valid() && steps == old(steps) + [a] && State() == old(State())
    {
      hide Run, Enabled, Next;
      RunExtends(table, trace, steps, a);
      RunLength(table, trace, steps);
      trace, steps := trace + [State()], steps + [a];
    }

    /** Whatever sections the threads have taken in whatever order: replaying what is on its way onto flash and
        loading gives back this cache exactly when every setting is restorable. */
    lemma Agreement()
      requires Valid() && WellFormed(table)
      ensures Agrees(table, State(), Settled(table, State()))
         <==> forall k: nat :: k < |table| ==> Restorable(table, State(), k)
    {
      CacheAgreesWithFlash(table, trace, steps, |steps|);
    }

    /** Once the setter called at step `i` has given the mutex back, its value is what a getter returns. */
    lemma SetterDone(i: nat, thread: nat, u: Update)
      requires Valid() && i < |steps| && steps[i] == Call(thread, u) && GoodArguments(table, u)
      requires holder == None && |trace| == |steps| + 1 && Busy(trace, i, |steps|)
      ensures (u.key, u.index) in values && values[(u.key, u.index)] == u.value && u.key in isSet
    {
      SetterStores(table, trace, steps, i, |steps|, thread, u);
    }

    /** Losing power now brings back what some earlier moment of this cache had settled to. */
    lemma AfterPowerLoss() returns (j: nat)
      requires Valid() && WellFormed(table)
      ensures j <= |steps| < |trace| && flash == Settled(table, trace[j])
      ensures SetsNoEmpty(steps) ==> Agrees(table, trace[j], flash)
    {
      j := PowerLoss(table, trace, steps, |steps|);
    }

    /** `nvs_config_init`: the load loop over every setting and every index. */
    constructor (table: Table, flash: Flash)
      ensures this.table == table && this.flash == flash && Initial(table, State())
      ensures Valid() && steps == []
    {
      this.table, this.flash := table, flash;
      values, isSet, holder, queue, inFlight := map[], {}, None, [], None;
      trace, steps := [], [];
      new;
      hide Loaded, FoundAt, LoadedUpTo, Initial, Run, Agrees;
      NothingLoaded(table, flash);
      var k: nat := 0;
      while k < |table|
        invariant k <= |table| && this.table == table && this.flash == flash
        invariant holder == None && queue == [] && inFlight == None
        invariant LoadedUpTo(table, flash, values, isSet, k, 0)
      {
        var i: nat := 0;
        while i < table[k].Count()
          invariant i <= table[k].Count() && this.table == table && this.flash == flash
          invariant holder == None && queue == [] && inFlight == None
          invariant LoadedUpTo(table, flash, values, isSet, k, i)
        {
          var found := FoundAt(table, flash, k, i);
          LoadOne(table, flash, values, isSet, k, i);
          if found.Some? {
            values := values[(k, i) := found.value];
            isSet := isSet + {k};
          } else {
            values := values[(k, i) := table[k].default];
          }
          i := i + 1;
        }
        NextSetting(table, flash, values, isSet, k);
        k := k + 1;
      }
      AllLoaded(table, flash, values, isSet);
      InitialIf(table, State());
      RunStarts(table, State());
      trace, steps := [State()], [];
      assert trace[|steps|] == State();
    }

    /** The getters: the current value under the cache mutex. */
    method Get(k: nat, i: nat) returns (v: Option<Value>)
      ensures v == if (k, i) in values then Some(values[(k, i)]) else None
    {
      v := if (k, i) in values then Some(values[(k, i)]) else None;
    }

    /** A setter checks its arguments and takes the update mutex. */
    method BeginUpdate(thread: nat, u: Update)
      requires Valid() && Enabled(table, State(), Call(thread, u))
      modifies this`holder, this`trace, this`steps
      ensures Valid() && steps == old(steps) + [Call(thread, u)]
      ensures State() == Next(table, old(State()), Call(thread, u))
    {
      if u.key < |table| && table[u.key].kind == u.value.Kind() {
        if u.index == 0 || (u.value.StrV? && u.index < table[u.key].arraySize) {
          holder := Some(Holder(thread, Comparing(u)));
        }
      }
      Record(Call(thread, u));
    }

    /** The first section under the cache mutex. Numbers are stored at once; strings are only compared. */
    method CompareValue(thread: nat)
      requires Valid() && Enabled(table, State(), Compare(thread))
      modifies this`holder, this`values, this`isSet, this`trace, this`steps
      ensures Valid() && steps == old(steps) + [Compare(thread)]
      ensures State() == Next(table, old(State()), Compare(thread))
    {
      var u := holder.value.phase.u;
      if (u.key, u.index) in values && values[(u.key, u.index)] == u.value && u.key in isSet {
        holder := None;
      } else if u.value.StrV? {
        holder := Some(Holder(thread, Replacing(u)));
      } else {
        values := values[(u.key, u.index) := u.value];
        isSet := isSet + {u.key};
        holder := Some(Holder(thread, Sending(u)));
      }
      Record(Compare(thread));
    }

    /** The second section of the string setters. */
    method ReplaceString(thread: nat)
      requires Valid() && Enabled(table, State(), Replace(thread))
      modifies this`holder, this`values, this`isSet, this`trace, this`steps
      ensures Valid() && steps == old(steps) + [Replace(thread)]
      ensures State() == Next(table, old(State()), Replace(thread))
    {
      var u := holder.value.phase.u;
      values := values[(u.key, u.index) := u.value];
      isSet := isSet + {u.key};
      holder := Some(Holder(thread, Sending(u)));
      Record(Replace(thread));
    }

    method SendUpdate(thread: nat)
      requires Valid() && Enabled(table, State(), Send(thread))
      modifies this`holder, this`queue, this`trace, this`steps
      ensures Valid() && steps == old(steps) + [Send(thread)]
      ensures State() == Next(table, old(State()), Send(thread)) && |queue| <= QUEUE_CAPACITY
    {
      queue := queue + [holder.value.phase.u];
      holder := Some(Holder(thread, Releasing));
      Record(Send(thread));
    }

    method EndUpdate(thread: nat)
      requires Valid() && Enabled(table, State(), Release(thread))
      modifies this`holder, this`trace, this`steps
      ensures Valid() && steps == old(steps) + [Release(thread)]
      ensures State() == Next(table, old(State()), Release(thread))
    {
      holder := None;
      Record(Release(thread));
    }

    /** The two halves of a round of `nvs_task`. */
    method ReceiveUpdate()
      requires Valid() && Enabled(table, State(), Receive)
      modifies this`queue, this`inFlight, this`trace, this`steps
      ensures Valid() && steps == old(steps) + [Receive]
      ensures State() == Next(table, old(State()), Receive)
    {
      inFlight := Some(queue[0]);
      queue := queue[1..];
      Record(Receive);
    }

    method PersistUpdate()
      requires Valid() && Enabled(table, State(), Persist)
      modifies this`flash, this`inFlight, this`trace, this`steps
      ensures Valid() && steps == old(steps) + [Persist]
      ensures State() == Next(table, old(State()), Persist)
    {
      var u := inFlight.value;
      if u.key < |table| && table[u.key].kind == u.value.Kind() {
        var key := KeyName(table[u.key], u.index);
        match u.value {
          case StrV(s) => flash := flash[key := EStr(s)];
          case U16V(n) => flash := flash[key := EU16(n)];
          case I32V(i) => flash := flash[key := EI32(i)];
          case U64V(m) => flash := flash[key := EU64(m)];
          case BoolV(b) => flash := flash[key := EU16(if b then 1 else 0)];
        }
      }
      inFlight := None;
      Record(Persist);
    }
  }

  lemma RunLength(table: Table, trace: seq<NvsModel.State>, steps: seq<Step>)
    requires Run(table, trace, steps)
    ensures |trace| == |steps| + 1
  {
  }

  /** The load loop has done the settings before `k` and the indices before `n` of setting `k`. */
  ghost predicate LoadedUpTo(table: Table, flash: Flash, values: map<Slot, Value>, isSet: set<nat>, k: nat, n: nat) {
    (forall l: nat, i: nat :: (l, i) in values <==> IsSlot(table, l, i) && (l < k || (l == k && i < n)))
    && (forall l: nat, i: nat :: (l, i) in values ==> values[(l, i)] == Loaded(table, flash, l, i))
    && (forall l: nat :: l in isSet <==> l < |table| && FlagSoFar(table, flash, l, k, n))
  }

  ghost predicate FlagSoFar(table: Table, flash: Flash, l: nat, k: nat, n: nat)
    requires l < |table|
  {
    exists i: nat :: IsSlot(table, l, i) && (l < k || (l == k && i < n)) && FoundAt(table, flash, l, i).Some?
  }

  lemma NothingLoaded(table: Table, flash: Flash)
    ensures LoadedUpTo(table, flash, map[], {}, 0, 0)
  {
    hide FoundAt;
  }

  lemma InitialIf(table: Table, s: NvsModel.State)
    requires s.holder == None && s.queue == [] && s.inFlight == None && Agrees(table, s, s.flash)
    ensures Initial(table, s)
  {
  }

  lemma LoadOne(table: Table, flash: Flash, values: map<Slot, Value>, isSet: set<nat>, k: nat, n: nat)
    requires LoadedUpTo(table, flash, values, isSet, k, n) && IsSlot(table, k, n)
    ensures LoadedUpTo(table, flash, values[(k, n) := Loaded(table, flash, k, n)],
      if FoundAt(table, flash, k, n).Some? then isSet + {k} else isSet, k, n + 1)
    ensures Loaded(table, flash, k, n)
      == if FoundAt(table, flash, k, n).Some? then FoundAt(table, flash, k, n).value else table[k].default
  {
    hide FoundAt;
    var set' := if FoundAt(table, flash, k, n).Some? then isSet + {k} else isSet;
    forall l: nat
      ensures l in set' <==> l < |table| && FlagSoFar(table, flash, l, k, n + 1)
    {
      if l < |table| {
        FlagGrows(table, flash, l, k, n);
      }
    }
  }

  lemma FlagGrows(table: Table, flash: Flash, l: nat, k: nat, n: nat)
    requires l < |table| && IsSlot(table, k, n)
    ensures FlagSoFar(table, flash, l, k, n + 1)
       <==> FlagSoFar(table, flash, l, k, n) || (l == k && FoundAt(table, flash, k, n).Some?)
  {
    hide FoundAt;
    if FlagSoFar(table, flash, l, k, n) {
      var i: nat :| IsSlot(table, l, i) && (l < k || (l == k && i < n)) && FoundAt(table, flash, l, i).Some?;
      assert FoundAt(table, flash, l, i).Some?;
    }
  }

  lemma NextSetting(table: Table, flash: Flash, values: map<Slot, Value>, isSet: set<nat>, k: nat)
    requires k < |table| && LoadedUpTo(table, flash, values, isSet, k, table[k].Count())
    ensures LoadedUpTo(table, flash, values, isSet, k + 1, 0)
  {
    hide FoundAt;
    forall l: nat | l < |table|
      ensures FlagSoFar(table, flash, l, k, table[k].Count()) <==> FlagSoFar(table, flash, l, k + 1, 0)
    {
    }
  }

  lemma AllLoaded(table: Table, flash: Flash, values: map<Slot, Value>, isSet: set<nat>)
    requires LoadedUpTo(table, flash, values, isSet, |table|, 0)
    ensures Agrees(table, NvsModel.State(values, isSet, None, [], None, flash), flash)
  {
    hide FoundAt;
    forall l: nat | l < |table|
      ensures FlagSoFar(table, flash, l, |table|, 0) <==> LoadedSet(table, flash, l)
    {
    }
  }
}
