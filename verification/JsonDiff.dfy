/** The delta between two JSON values, and what overlaying it on the old one gives. Objects have unique keys;
    `None` stands for an absent member or a null pointer. */
module JsonDiff {
  import opened Wrappers

  datatype Json = Null | Bool(b: bool) | Number(text: string) | Text(s: string) | Array(items: seq<Json>)
                | Object(members: map<string, Json>)

  function Get(j: Json, k: string): Option<Json>
    requires j.Object?
  {
    if k in j.members then Some(j.members[k]) else None
  }

  lemma SameMembers(a: Json, b: Json)
    requires a.Object? && b.Object?
    requires forall k :: Get(a, k) == Get(b, k)
    ensures a == b
  {
    forall k ensures k in a.members <==> k in b.members {
      assert Get(a, k) == Get(b, k);
    }
    forall k | k in a.members ensures a.members[k] == b.members[k] {
      assert Get(a, k) == Get(b, k);
    }
    assert a.members == b.members;
  }

  /** `update` laid over `base`: objects merge member by member, anything else replaces what was there. */
  function Overlay(base: Json, update: Json): Json
    decreases update
  {
    if base.Object? && update.Object? then
      Object(map k | k in base.members.Keys + update.members.Keys ::
        if k !in update.members then base.members[k]
        else if k !in base.members then update.members[k]
        else Overlay(base.members[k], update.members[k]))
    else update
  }

  /** The same for a value that may be missing and a delta that may be empty. */
  function Apply(base: Option<Json>, update: Option<Json>): Option<Json> {
    if update.None? then base
    else if base.None? then update
    else Some(Overlay(base.value, update.value))
  }

  lemma OverlayGet(base: Json, update: Json, k: string)
    requires base.Object? && update.Object?
    ensures Get(Overlay(base, update), k) == Apply(Get(base, k), Get(update, k))
  {
  }

  /** What a member of the new object contributes to the delta. */
  function MemberDiff(before: Option<Json>, after: Json): Option<Json>
    decreases after, 1
  {
    if before.Some? && before.value == after then None
    else if after.Object? && before.Some? && before.value.Object? then Diff(before, Some(after))
    else Some(after)
  }

  /** `yyjson_diff_objects`. */
  function Diff(before: Option<Json>, after: Option<Json>): Option<Json>
    decreases if after.Some? then after.value else Null, 0
  {
    if after.None? || !after.value.Object? then None
    else if before.None? || !before.value.Object? then after
    else
      var b, a := before.value, after.value;
      var d := map k | k in a.members && MemberDiff(Get(b, k), a.members[k]).Some? ::
        MemberDiff(Get(b, k), a.members[k]).value;
      if d == map[] then None else Some(Object(d))
  }

  /** An empty delta and an empty object say the same. */
  function Delta(before: Json, after: Json): (d: Json)
    requires before.Object? && after.Object?
    ensures d.Object?
  {
    var d := Diff(Some(before), Some(after));
    if d.None? then Object(map[]) else d.value
  }

  lemma DeltaGet(before: Json, after: Json, k: string)
    requires before.Object? && after.Object?
    ensures Get(Delta(before, after), k)
         == if k in after.members then MemberDiff(Get(before, k), after.members[k]) else None
  {
    var d := map k | k in after.members && MemberDiff(Get(before, k), after.members[k]).Some? ::
      MemberDiff(Get(before, k), after.members[k]).value;
    assert Delta(before, after) == Object(d);
  }

  lemma {:induction false} OverlaySelf(j: Json)
    ensures Overlay(j, j) == j
    decreases j
  {
    if j.Object? {
      forall k ensures Get(Overlay(j, j), k) == Get(j, k) {
        OverlayGet(j, j, k);
        if k in j.members {
          OverlaySelf(j.members[k]);
        }
      }
      SameMembers(Overlay(j, j), j);
    }
  }

  lemma OverlayEmpty(j: Json)
    requires j.Object?
    ensures Overlay(j, Object(map[])) == j
  {
    forall k ensures Get(Overlay(j, Object(map[])), k) == Get(j, k) {
      OverlayGet(j, Object(map[]), k);
    }
    SameMembers(Overlay(j, Object(map[])), j);
  }

  /** Each member's delta brings that member to where the whole new value would. */
  lemma {:induction false} MemberDiffReproduces(before: Option<Json>, after: Json)
    ensures Apply(before, MemberDiff(before, after)) == Apply(before, Some(after))
    decreases after, 1
  {
    hide Diff, Overlay;
    if before.Some? && before.value == after {
      OverlaySelf(after);
    } else if after.Object? && before.Some? && before.value.Object? {
      DeltaReproduces(before.value, after);
      if MemberDiff(before, after).None? {
        OverlayEmpty(before.value);
      }
    }
  }

  lemma {:induction false} DeltaReproduces(before: Json, after: Json)
    requires before.Object? && after.Object?
    ensures Overlay(before, Delta(before, after)) == Overlay(before, after)
    decreases after, 0
  {
    hide Diff, MemberDiff, Delta;
    var l, r := Overlay(before, Delta(before, after)), Overlay(before, after);
    forall k ensures Get(l, k) == Get(r, k) {
      OverlayGet(before, Delta(before, after), k);
      OverlayGet(before, after, k);
      DeltaGet(before, after, k);
      if k in after.members {
        MemberDiffReproduces(Get(before, k), after.members[k]);
      }
    }
    SameMembers(l, r);
  }

  /** Overlaying the delta gives what overlaying the new value itself gives, exactly when the new value is an
      object, is missing, or has not changed: the delta of anything else is empty. */
  lemma DiffReproduces(before: Option<Json>, after: Option<Json>)
    ensures Apply(before, Diff(before, after)) == Apply(before, after)
       <==> after.None? || after.value.Object? || before == after
  {
    hide Overlay;
    if after.Some? {
      if !after.value.Object? {
        if before.Some? {
          NoMerge(before.value, after.value);
        }
      } else if before.Some? && before.value.Object? {
        DeltaReproduces(before.value, after.value);
        OverlayEmpty(before.value);
      }
    }
  }

  lemma NoMerge(base: Json, update: Json)
    requires !base.Object? || !update.Object?
    ensures Overlay(base, update) == update
  {
  }

  /** Between two objects, a key is in the delta exactly when overlaying would change that member. */
  lemma {:induction false} DeltaKeys(before: Json, after: Json, k: string)
    requires before.Object? && after.Object?
    ensures k in Delta(before, after).members
       <==> k in after.members && Apply(Get(before, k), Some(after.members[k])) != Get(before, k)
    decreases after, 0
  {
    hide Diff, Delta, MemberDiff;
    DeltaGet(before, after, k);
    if k in after.members {
      MemberDiffEmpty(Get(before, k), after.members[k]);
    }
  }

  /** Nothing in `d` could be left out of it: wherever it goes into an object of `base`, each member changes
      something there, and says no more than it must. */
  ghost predicate Minimal(base: Json, d: Json)
    decreases d
  {
    base.Object? && d.Object? ==>
      forall k :: k in base.members && k in d.members ==>
        Overlay(base.members[k], d.members[k]) != base.members[k] && Minimal(base.members[k], d.members[k])
  }

  /** The delta is minimal at every depth. */
  lemma {:induction false} DeltaMinimal(before: Json, after: Json)
    requires before.Object? && after.Object?
    ensures Minimal(before, Delta(before, after))
    decreases after, 0
  {
    hide Diff, Delta, MemberDiff, Overlay;
    var d := Delta(before, after);
    forall k | k in before.members && k in d.members
      ensures Overlay(before.members[k], d.members[k]) != before.members[k]
           && Minimal(before.members[k], d.members[k])
    {
      DeltaGet(before, after, k);
      DeltaKeys(before, after, k);
      var b, a := before.members[k], after.members[k];
      MemberDiffReproduces(Some(b), a);
      MemberMinimal(b, a, d.members[k]);
    }
  }

  lemma {:induction false} MemberMinimal(before: Json, after: Json, d: Json)
    requires MemberDiff(Some(before), after) == Some(d)
    ensures Minimal(before, d)
    decreases after, 1
  {
    hide Overlay, Delta;
    if before.Object? && after.Object? {
      DeltaMinimal(before, after);
      MemberIsDelta(before, after);
    }
  }

  lemma MemberIsDelta(before: Json, after: Json)
    requires before.Object? && after.Object? && MemberDiff(Some(before), after).Some?
    ensures MemberDiff(Some(before), after) == Some(Delta(before, after))
  {
  }

  lemma {:induction false} MemberDiffEmpty(before: Option<Json>, after: Json)
    ensures MemberDiff(before, after).None? <==> Apply(before, Some(after)) == before
    decreases after, 1
  {
    hide Diff, Overlay;
    MemberDiffReproduces(before, after);
    if before.Some? && before.value != after {
      if after.Object? && before.value.Object? {
        DiffEmpty(before.value, after);
      } else {
        NoMerge(before.value, after);
      }
    }
  }

  /** Between two objects the delta is empty exactly when overlaying the new one changes nothing. */
  lemma {:induction false} DiffEmpty(before: Json, after: Json)
    requires before.Object? && after.Object?
    ensures Diff(Some(before), Some(after)).None? <==> Overlay(before, after) == before
    decreases after, 0
  {
    hide Diff, MemberDiff, Overlay;
    DeltaReproduces(before, after);
    if Diff(Some(before), Some(after)).None? {
      OverlayEmpty(before);
    } else {
      DiffNotEmpty(before, after);
      var k :| Get(Delta(before, after), k).Some?;
      DeltaGet(before, after, k);
      MemberDiffEmpty(Get(before, k), after.members[k]);
      OverlayGet(before, after, k);
    }
  }

  lemma DiffNotEmpty(before: Json, after: Json)
    requires before.Object? && after.Object?
    ensures Diff(Some(before), Some(after)).Some? <==> exists k :: Get(Delta(before, after), k).Some?
  {
    var d := Delta(before, after);
    if Diff(Some(before), Some(after)).Some? {
      var k :| k in d.members;
      assert Get(d, k).Some?;
    }
  }

  lemma {:induction false} OverlayTwice(base: Json, update: Json)
    ensures Overlay(Overlay(base, update), update) == Overlay(base, update)
    decreases update
  {
    if base.Object? && update.Object? {
      var once := Overlay(base, update);
      forall k ensures Get(Overlay(once, update), k) == Get(once, k) {
        OverlayGet(once, update, k);
        OverlayGet(base, update, k);
        if k in update.members {
          OverlaySelf(update.members[k]);
          if k in base.members {
            OverlayTwice(base.members[k], update.members[k]);
          }
        }
      }
      SameMembers(Overlay(once, update), once);
    } else {
      OverlaySelf(update);
    }
  }

  /** Once the delta has been applied there is nothing left to send. */
  lemma DiffSettles(before: Option<Json>, after: Json)
    requires after.Object?
    ensures Diff(Apply(before, Diff(before, Some(after))), Some(after)) == None
  {
    hide Diff, Overlay;
    DiffReproduces(before, Some(after));
    var merged := Apply(before, Some(after)).value;
    if before.Some? {
      OverlayTwice(before.value, after);
    } else {
      OverlaySelf(after);
    }
    OverlayObject(before, after);
    DiffEmpty(merged, after);
  }

  lemma OverlayObject(before: Option<Json>, after: Json)
    requires after.Object?
    ensures Apply(before, Some(after)).value.Object?
  {
  }

  /** No object of the old value has a member the new one lacks: a delta has no way to say "removed". */
  ghost predicate NothingRemoved(before: Json, after: Json)
    decreases after
  {
    before.Object? && after.Object? ==>
      forall k :: k in before.members ==>
        k in after.members && NothingRemoved(before.members[k], after.members[k])
  }

  /** The old value with the delta laid over it is the new value exactly when nothing was removed. */
  lemma DiffTransmits(before: Json, after: Json)
    requires after.Object?
    ensures Apply(Some(before), Diff(Some(before), Some(after))) == Some(after) <==> NothingRemoved(before, after)
  {
    hide Diff, Overlay, NothingRemoved;
    DiffReproduces(Some(before), Some(after));
    OverlayComplete(before, after);
  }

  /** A member that has gone leaves no trace in the delta, and the old value stands. */
  lemma RemovalLost()
    ensures var before, after := Object(map["pool" := Null]), Object(map[]);
      Diff(Some(before), Some(after)) == None && Apply(Some(before), None) != Some(after)
  {
    var before, after := Object(map["pool" := Null]), Object(map[]);
    assert "pool" in before.members && "pool" !in after.members;
  }

  lemma {:induction false} OverlayComplete(before: Json, after: Json)
    ensures Overlay(before, after) == after <==> NothingRemoved(before, after)
    decreases after
  {
    if before.Object? && after.Object? {
      forall k | k in before.members && k in after.members
        ensures Overlay(before.members[k], after.members[k]) == after.members[k]
           <==> NothingRemoved(before.members[k], after.members[k])
      {
        OverlayComplete(before.members[k], after.members[k]);
      }
      hide NothingRemoved;
      CompleteMembers(before, after);
    }
  }

  lemma CompleteMembers(before: Json, after: Json)
    requires before.Object? && after.Object?
    ensures Overlay(before, after) == after
       <==> forall k :: k in before.members ==>
              k in after.members && Overlay(before.members[k], after.members[k]) == after.members[k]
  {
    hide Overlay;
    OverlayObject(Some(before), after);
    if Overlay(before, after) == after {
      forall k | k in before.members
        ensures k in after.members && Overlay(before.members[k], after.members[k]) == after.members[k]
      {
        OverlayGet(before, after, k);
      }
    }
    if forall k :: k in before.members ==>
         k in after.members && Overlay(before.members[k], after.members[k]) == after.members[k] {
      forall k ensures Get(Overlay(before, after), k) == Get(after, k) {
        OverlayGet(before, after, k);
      }
      SameMembers(Overlay(before, after), after);
    }
  }

  /** `yyjson_diff_objects` as it runs: members are visited in some order and the delta grows by those that
      need saying. */
  method DiffObjects(before: Option<Json>, after: Option<Json>) returns (diff: Option<Json>)
    ensures diff == Diff(before, after)
    decreases if after.Some? then after.value else Null
  {
    hide Diff;
    DiffCases(before, after);
    if after.None? || !after.value.Object? {
      return None;
    }
    if before.None? || !before.value.Object? {
      return after;
    }
    diff := None;
    var b, a := before.value, after.value;
    var keys := a.members.Keys;
    while keys != {}
      invariant keys <= a.members.Keys
      invariant Visited(b, a, a.members.Keys - keys, diff)
      decreases |keys|
    {
      var key :| key in keys;
      var contribution := None;
      var oldVal := Get(b, key);
      var newVal := a.members[key];
      if oldVal.None? || oldVal.value != newVal {
        if newVal.Object? && oldVal.Some? && oldVal.value.Object? {
          contribution := DiffObjects(oldVal, Some(newVal));
        } else {
          contribution := Some(newVal);
        }
      }
      assert contribution == MemberDiff(oldVal, newVal);
      ghost var was := diff;
      if contribution.Some? {
        if diff.None? {
          diff := Some(Object(map[]));
        }
        diff := Some(Object(diff.value.members[key := contribution.value]));
      }
      VisitOne(b, a, a.members.Keys - keys, key, was, diff);
      assert a.members.Keys - (keys - {key}) == (a.members.Keys - keys) + {key};
      keys := keys - {key};
    }
    assert a.members.Keys - {} == a.members.Keys;
    AllVisited(b, a, diff);
  }

  /** The delta so far, after the members in `done` have been visited. */
  ghost predicate Visited(before: Json, after: Json, done: set<string>, diff: Option<Json>)
    requires before.Object? && after.Object?
  {
    && done <= after.members.Keys
    && (diff.Some? ==> diff.value.Object? && diff.value.members != map[])
    && forall k :: MemberSoFar(diff, k)
         == if k in done then MemberDiff(Get(before, k), after.members[k]) else None
  }

  function MemberSoFar(diff: Option<Json>, k: string): Option<Json> {
    if diff.Some? && diff.value.Object? then Get(diff.value, k) else None
  }

  lemma VisitOne(before: Json, after: Json, done: set<string>, key: string, was: Option<Json>, now: Option<Json>)
    requires before.Object? && after.Object? && Visited(before, after, done, was)
    requires key in after.members && key !in done
    requires var c := MemberDiff(Get(before, key), after.members[key]);
      if c.None? then now == was
      else now == Some(Object((if was.None? then map[] else was.value.members)[key := c.value]))
    ensures Visited(before, after, done + {key}, now)
  {
    hide Diff, MemberDiff;
    var c := MemberDiff(Get(before, key), after.members[key]);
    if c.Some? {
      assert key in now.value.members;
    }
    forall k ensures MemberSoFar(now, k)
      == if k in done + {key} then MemberDiff(Get(before, k), after.members[k]) else None
    {
      assert MemberSoFar(was, k) == if k in done then MemberDiff(Get(before, k), after.members[k]) else None;
    }
  }

  lemma DiffCases(before: Option<Json>, after: Option<Json>)
    ensures after.None? || !after.value.Object? ==> Diff(before, after) == None
    ensures after.Some? && after.value.Object? && (before.None? || !before.value.Object?) ==>
        Diff(before, after) == after
  {
  }

  lemma AllVisited(before: Json, after: Json, diff: Option<Json>)
    requires before.Object? && after.Object? && Visited(before, after, after.members.Keys, diff)
    ensures diff == Diff(Some(before), Some(after))
  {
    hide Diff, MemberDiff;
    var d := Delta(before, after);
    forall k ensures MemberSoFar(diff, k) == Get(d, k) {
      DeltaGet(before, after, k);
    }
    if diff.Some? {
      SameMembers(diff.value, d);
    } else {
      DiffNotEmpty(before, after);
    }
  }
}
