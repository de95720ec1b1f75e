/** The bounded table of coinbase outputs: `coinbase_store_output` as a function of the table,
    what any run of it keeps, and the final partition. */
module CoinbaseLedger {
  const U64: nat := 0x1_0000_0000_0000_0000

  const MAX_OUTPUTS: nat := 6

  datatype Output = Output(value: nat, address: string, isUser: bool)

  datatype Ledger = Ledger(outputs: seq<Output>, othersCount: nat, othersValue: nat)

  const EMPTY: Ledger := Ledger([], 0, 0)

  /** Eviction candidates are below the initial `UINT64_MAX`. */
  predicate Evictable(o: Output) {
    !o.isUser && o.value != 0 && o.value < U64 - 1
  }

  /** The first smallest candidate among the first `n` outputs, or -1. */
  function EvictIndex(outs: seq<Output>, n: nat): (k: int)
    requires n <= |outs|
    ensures -1 <= k < n
    ensures k == -1 ==> forall i :: 0 <= i < n ==> !Evictable(outs[i])
    ensures k >= 0 ==> Evictable(outs[k])
    ensures k >= 0 ==> forall i :: 0 <= i < n && Evictable(outs[i]) ==>
      outs[k].value <= outs[i].value && (i < k ==> outs[k].value < outs[i].value)
  {
    if n == 0 then -1
    else
      var k := EvictIndex(outs, n - 1);
      if Evictable(outs[n - 1]) && (k == -1 || outs[n - 1].value < outs[k].value) then n - 1 else k
  }

  /** The output that leaves for the "others" bucket when `o` arrives, if one does. */
  function Aggregates(l: Ledger, o: Output): seq<Output> {
    if |l.outputs| < MAX_OUTPUTS || o.value == 0 then []
    else
      var k := EvictIndex(l.outputs, |l.outputs|);
      if k < 0 || (!o.isUser && o.value <= l.outputs[k].value) then [o] else [l.outputs[k]]
  }

  function Store(l: Ledger, o: Output): Ledger {
    if |l.outputs| < MAX_OUTPUTS then l.(outputs := l.outputs + [o])
    else if o.value == 0 then l
    else
      var k := EvictIndex(l.outputs, |l.outputs|);
      if k < 0 || (!o.isUser && o.value <= l.outputs[k].value) then
        l.(othersCount := l.othersCount + 1, othersValue := (l.othersValue + o.value) % U64)
      else
        Ledger(l.outputs[k := o], l.othersCount + 1, (l.othersValue + l.outputs[k].value) % U64)
  }

  /** The table after the outputs `es`, in order. */
  function Run(l: Ledger, es: seq<Output>): Ledger {
    if es == [] then l else Store(Run(l, es[..|es| - 1]), es[|es| - 1])
  }

  /** Everything the bucket has received. */
  function Aggregated(l: Ledger, es: seq<Output>): seq<Output> {
    if es == [] then []
    else Aggregated(l, es[..|es| - 1]) + Aggregates(Run(l, es[..|es| - 1]), es[|es| - 1])
  }

  /** The zero-value outputs that arrived at a full table. */
  function Dropped(l: Ledger, es: seq<Output>): seq<Output> {
    if es == [] then []
    else
      var e := es[|es| - 1];
      Dropped(l, es[..|es| - 1]) + DropsNow(Run(l, es[..|es| - 1]), e)
  }

  function Sum(outs: seq<Output>): nat {
    if outs == [] then 0 else Sum(outs[..|outs| - 1]) + outs[|outs| - 1].value
  }

  // ---------------------------------------------------------------- sums

  lemma {:induction false} SumConcat(a: seq<Output>, b: seq<Output>)
    ensures Sum(a + b) == Sum(a) + Sum(b)
  {
    if b == [] {
      assert a + b == a;
    } else {
      assert (a + b)[..|a + b| - 1] == a + b[..|b| - 1];
      SumConcat(a, b[..|b| - 1]);
    }
  }

  lemma SumSnoc(a: seq<Output>, o: Output)
    ensures Sum(a + [o]) == Sum(a) + o.value
  {
    assert (a + [o])[..|a + [o]| - 1] == a;
  }

  lemma SumUpdate(a: seq<Output>, k: nat, o: Output)
    requires k < |a|
    ensures Sum(a[k := o]) + a[k].value == Sum(a) + o.value
  {
    var b, c := a[..k], a[k + 1..];
    assert a == b + [a[k]] + c;
    assert a[k := o] == b + [o] + c;
    SumConcat(b + [a[k]], c);
    SumConcat(b + [o], c);
    SumSnoc(b, a[k]);
    SumSnoc(b, o);
  }

  // ---------------------------------------------------------------- what a run keeps

  /** Every output is stored, aggregated, or a dropped zero, exactly once. */
  lemma {:induction false} Tiling(es: seq<Output>)
    ensures var l := Run(EMPTY, es);
      multiset(l.outputs) + multiset(Aggregated(EMPTY, es)) + multiset(Dropped(EMPTY, es)) == multiset(es)
    ensures Run(EMPTY, es).othersCount == |Aggregated(EMPTY, es)|
    ensures forall o :: o in Dropped(EMPTY, es) ==> o.value == 0
  {
    hide EvictIndex, Store, Aggregates, DropsNow;
    if es == [] {
    } else {
      var init, e := es[..|es| - 1], es[|es| - 1];
      var l := Run(EMPTY, init);
      Tiling(init);
      assert es == init + [e];
      DropsZero(l, e);
      TilingStep(l, e);
      TilingSum(multiset(l.outputs), multiset(Aggregated(EMPTY, init)), multiset(Dropped(EMPTY, init)),
                multiset(init), multiset(Store(l, e).outputs), multiset(Aggregates(l, e)), DropsNow(l, e), e);
    }
  }

  /** The zero-value output that is dropped when it meets a full table. */
  function DropsNow(l: Ledger, e: Output): seq<Output> {
    if |l.outputs| >= MAX_OUTPUTS && e.value == 0 then [e] else []
  }

  lemma DropsZero(l: Ledger, e: Output)
    ensures forall o :: o in DropsNow(l, e) ==> o.value == 0
  {}

  lemma TilingSum(stored: multiset<Output>, gone: multiset<Output>, dropped: multiset<Output>, all: multiset<Output>,
                  next: multiset<Output>, out: multiset<Output>, zero: seq<Output>, e: Output)
    requires stored + gone + dropped == all
    requires next + out + multiset(zero) == stored + multiset{e}
    ensures next + (gone + out) + (dropped + multiset(zero)) == all + multiset{e}
  {
    var lhs, rhs := next + (gone + out) + (dropped + multiset(zero)), all + multiset{e};
    forall x: Output
      ensures lhs[x] == rhs[x]
    {
      assert (next + out + multiset(zero))[x] == (stored + multiset{e})[x];
      assert (stored + gone + dropped)[x] == all[x];
    }
  }

  lemma TilingStep(l: Ledger, o: Output)
    ensures multiset(Store(l, o).outputs) + multiset(Aggregates(l, o)) + multiset(DropsNow(l, o))
         == multiset(l.outputs) + multiset{o}
    ensures Store(l, o).othersCount == l.othersCount + |Aggregates(l, o)|
  {
    hide EvictIndex;
  }

  /** Stored values and the bucket add up to everything seen. */
  lemma {:induction false} Conservation(es: seq<Output>)
    requires Sum(es) < U64
    ensures var l := Run(EMPTY, es);
      Sum(l.outputs) + l.othersValue == Sum(es) && l.othersValue == Sum(Aggregated(EMPTY, es))
  {
    hide EvictIndex;
    if es == [] {
    } else {
      var init, e := es[..|es| - 1], es[|es| - 1];
      Conservation(init);
      ConservationStep(Run(EMPTY, init), e);
      SumConcat(Aggregated(EMPTY, init), Aggregates(Run(EMPTY, init), e));
    }
  }

  lemma ConservationStep(l: Ledger, o: Output)
    requires Sum(l.outputs) + l.othersValue + o.value < U64
    ensures Sum(Store(l, o).outputs) + Store(l, o).othersValue == Sum(l.outputs) + l.othersValue + o.value
    ensures Store(l, o).othersValue == l.othersValue + Sum(Aggregates(l, o))
  {
    hide EvictIndex, Sum;
    SumSnoc(l.outputs, o);
    SumSingle(o);
    SumNone();
    var k := EvictIndex(l.outputs, |l.outputs|);
    if k >= 0 {
      SumUpdate(l.outputs, k, o);
      SumSingle(l.outputs[k]);
    }
  }

  lemma SumNone()
    ensures Sum([]) == 0
  {}

  lemma SumSingle(o: Output)
    ensures Sum([o]) == o.value
  {
    assert [o][..0] == [];
  }

  /** The bucket never holds a non-user output larger than a stored positive one. */
  ghost predicate KeepsLargest(outs: seq<Output>, gone: seq<Output>) {
    forall x, y :: x in gone && !x.isUser && y in outs && !y.isUser && y.value > 0 ==> x.value <= y.value
  }

  lemma {:induction false} LargestKept(es: seq<Output>)
    requires forall e :: e in es ==> e.value < U64
    ensures KeepsLargest(Run(EMPTY, es).outputs, Aggregated(EMPTY, es))
    ensures Aggregated(EMPTY, es) != [] ==> |Run(EMPTY, es).outputs| >= MAX_OUTPUTS
    ensures forall o :: o in Run(EMPTY, es).outputs ==> o.value < U64
  {
    hide EvictIndex;
    if es == [] {
    } else {
      var init, e := es[..|es| - 1], es[|es| - 1];
      LargestKept(init);
      assert e in es;
      LargestStep(Run(EMPTY, init), Aggregated(EMPTY, init), e);
    }
  }

  lemma LargestStep(l: Ledger, gone: seq<Output>, o: Output)
    requires KeepsLargest(l.outputs, gone) && o.value < U64
    requires gone != [] ==> |l.outputs| >= MAX_OUTPUTS
    requires forall p :: p in l.outputs ==> p.value < U64
    ensures KeepsLargest(Store(l, o).outputs, gone + Aggregates(l, o))
    ensures gone + Aggregates(l, o) != [] ==> |Store(l, o).outputs| >= MAX_OUTPUTS
    ensures forall p :: p in Store(l, o).outputs ==> p.value < U64
  {
    hide EvictIndex;
    var outs := l.outputs;
    if |outs| >= MAX_OUTPUTS && o.value != 0 {
      var k := EvictIndex(outs, |outs|);
      var x := Aggregates(l, o)[0];
      var next := Store(l, o).outputs;
      forall y | y in next && !y.isUser && y.value > 0
        ensures !x.isUser ==> x.value <= y.value
        ensures forall z :: z in gone && !z.isUser ==> z.value <= y.value
      {
        if y in outs {
          var i :| 0 <= i < |outs| && outs[i] == y;
          assert !Evictable(y) ==> y.value == U64 - 1;
        } else {
          assert y == o && next == outs[k := o] && outs[k] in outs;
        }
      }
    }
  }

  /** A stored output that is the user's, or worth nothing, keeps its place for good. */
  lemma {:induction false} FixedKept(l: Ledger, es: seq<Output>, k: nat)
    requires k < |l.outputs| && !Evictable(l.outputs[k])
    ensures k < |Run(l, es).outputs| && Run(l, es).outputs[k] == l.outputs[k]
  {
    hide EvictIndex;
    if es == [] {
    } else {
      FixedKept(l, es[..|es| - 1], k);
    }
  }

  /** The table only refuses a user output once nothing in it can be evicted. */
  lemma {:induction false} UserRefused(es: seq<Output>, o: Output)
    requires o in Aggregated(EMPTY, es) && o.isUser
    ensures forall p :: p in Run(EMPTY, es).outputs ==> !Evictable(p)
  {
    hide EvictIndex;
    var init, e := es[..|es| - 1], es[|es| - 1];
    var l := Run(EMPTY, init);
    if o in Aggregated(EMPTY, init) {
      UserRefused(init, o);
      AggregatedWhenFull(init);
      Saturated(l, e);
    } else {
      assert o in Aggregates(l, e);
      var k := EvictIndex(l.outputs, |l.outputs|);
      assert k < 0;
    }
  }

  lemma {:induction false} AggregatedWhenFull(es: seq<Output>)
    ensures Aggregated(EMPTY, es) != [] ==> |Run(EMPTY, es).outputs| >= MAX_OUTPUTS
  {
    hide EvictIndex;
    if es == [] {
    } else {
      AggregatedWhenFull(es[..|es| - 1]);
    }
  }

  /** A full table without candidates stays as it is. */
  lemma Saturated(l: Ledger, o: Output)
    requires |l.outputs| >= MAX_OUTPUTS && forall p :: p in l.outputs ==> !Evictable(p)
    ensures Store(l, o).outputs == l.outputs
  {
    hide EvictIndex;
  }

  // ---------------------------------------------------------------- when every user output is kept

  /** An output that takes a place for good when it is the `i`-th to arrive and there is one to take. */
  predicate Pinned(o: Output, i: nat) {
    !Evictable(o) && (o.value > 0 || i < MAX_OUTPUTS)
  }

  function Pins(es: seq<Output>): (n: nat)
    ensures n <= |es|
  {
    if es == [] then 0
    else Pins(es[..|es| - 1]) + if Pinned(es[|es| - 1], |es| - 1) then 1 else 0
  }

  function CountFixed(outs: seq<Output>): (n: nat)
    ensures n <= |outs|
  {
    if outs == [] then 0
    else CountFixed(outs[..|outs| - 1]) + if Evictable(outs[|outs| - 1]) then 0 else 1
  }

  lemma CountSnoc(outs: seq<Output>, o: Output)
    ensures CountFixed(outs + [o]) == CountFixed(outs) + if Evictable(o) then 0 else 1
  {
    assert (outs + [o])[..|outs|] == outs;
  }

  lemma {:induction false} CountUpdate(outs: seq<Output>, k: nat, o: Output)
    requires k < |outs| && Evictable(outs[k])
    ensures CountFixed(outs[k := o]) == CountFixed(outs) + if Evictable(o) then 0 else 1
    decreases |outs|
  {
    var m := |outs| - 1;
    if k == m {
      assert outs[k := o][..m] == outs[..m];
    } else {
      assert outs[k := o][..m] == outs[..m][k := o];
      CountUpdate(outs[..m], k, o);
    }
  }

  lemma {:induction false} CountAll(outs: seq<Output>)
    ensures CountFixed(outs) == |outs| <==> forall i :: 0 <= i < |outs| ==> !Evictable(outs[i])
    decreases |outs|
  {
    if outs == [] {
    } else {
      CountAll(outs[..|outs| - 1]);
    }
  }

  /** Eviction finds nobody exactly when every place is taken for good. */
  lemma NobodyLeft(outs: seq<Output>)
    ensures EvictIndex(outs, |outs|) == -1 <==> CountFixed(outs) == |outs|
  {
    CountAll(outs);
  }

  lemma CountStore(l: Ledger, o: Output)
    requires |l.outputs| <= MAX_OUTPUTS
    ensures var c, next := CountFixed(l.outputs), Store(l, o).outputs;
      if |l.outputs| < MAX_OUTPUTS then
        |next| == |l.outputs| + 1 && CountFixed(next) == c + if Evictable(o) then 0 else 1
      else
        |next| == MAX_OUTPUTS && CountFixed(next) == if Pinned(o, MAX_OUTPUTS) && c < MAX_OUTPUTS then c + 1 else c
  {
    hide EvictIndex, CountFixed;
    var outs := l.outputs;
    CountSnoc(outs, o);
    NobodyLeft(outs);
    var k := EvictIndex(outs, |outs|);
    if k >= 0 {
      CountUpdate(outs, k, o);
    }
  }

  /** The places taken for good are the pins so far, up to the size of the table. */
  lemma {:induction false} CountRun(es: seq<Output>)
    ensures var outs := Run(EMPTY, es).outputs;
      |outs| == (if |es| < MAX_OUTPUTS then |es| else MAX_OUTPUTS)
      && CountFixed(outs) == if Pins(es) < MAX_OUTPUTS then Pins(es) else MAX_OUTPUTS
    decreases |es|
  {
    hide Store, Evictable;
    if es == [] {
    } else {
      CountRun(es[..|es| - 1]);
      CountStore(Run(EMPTY, es[..|es| - 1]), es[|es| - 1]);
    }
  }

  /** When each paying user output arrives, some place is not yet taken for good. */
  ghost predicate UsersFit(es: seq<Output>) {
    forall j :: 0 <= j < |es| && es[j].isUser && es[j].value > 0 ==> Pins(es[..j]) < MAX_OUTPUTS
  }

  lemma UsersFitLast(es: seq<Output>)
    requires es != []
    ensures var init, o := es[..|es| - 1], es[|es| - 1];
      UsersFit(es) <==> UsersFit(init) && (o.isUser && o.value > 0 ==> Pins(init) < MAX_OUTPUTS)
  {
    hide Pins;
    var init := es[..|es| - 1];
    assert forall j :: 0 <= j < |init| ==> init[j] == es[j] && init[..j] == es[..j];
  }

  /** An arriving output sends a user output to the bucket exactly when it is one that pays and nobody can leave. */
  lemma UserAggregates(l: Ledger, o: Output)
    requires |l.outputs| <= MAX_OUTPUTS
    ensures (exists p :: p in Aggregates(l, o) && p.isUser)
       <==> o.isUser && o.value > 0 && CountFixed(l.outputs) == MAX_OUTPUTS
  {
    hide CountFixed;
    NobodyLeft(l.outputs);
    if o.isUser && o.value > 0 && CountFixed(l.outputs) == MAX_OUTPUTS {
      assert Aggregates(l, o) == [o];
      assert o in Aggregates(l, o);
    }
  }

  ghost predicate NoUser(outs: seq<Output>) {
    forall o :: o in outs ==> !o.isUser
  }

  /** No user output ever ends in the bucket exactly when each that pays finds a place not taken for good. */
  lemma {:induction false} UsersKept(es: seq<Output>)
    ensures NoUser(Aggregated(EMPTY, es)) <==> UsersFit(es)
    decreases |es|
  {
    if es == [] {
    } else {
      hide Store, Evictable, Aggregates, UsersFit, Pins, CountFixed;
      var init, o := es[..|es| - 1], es[|es| - 1];
      UsersKept(init);
      UsersFitLast(es);
      CountRun(init);
      UserAggregates(Run(EMPTY, init), o);
    }
  }

  lemma {:induction false} PinsGrow(es: seq<Output>, j: nat)
    requires j < |es|
    ensures Pins(es) >= Pins(es[..j]) + if Pinned(es[j], j) then 1 else 0
    decreases |es|
  {
    hide Pinned;
    var m := |es| - 1;
    if j < m {
      assert es[..m][..j] == es[..j];
      PinsGrow(es[..m], j);
    }
  }

  /** Below the one value that eviction overlooks, the whole list decides: the zero-value outputs among the first
      and the paying user outputs must not be more than the table holds. */
  lemma {:induction false} PinsDecide(es: seq<Output>)
    requires forall e :: e in es ==> e.value < U64 - 1
    ensures UsersFit(es) <==> Pins(es) <= MAX_OUTPUTS
    decreases |es|
  {
    if es == [] {
    } else {
      var init, o := es[..|es| - 1], es[|es| - 1];
      assert o in es && forall e :: e in init ==> e in es;
      UsersFitLast(es);
      PinsDecide(init);
    }
  }

  /** Then every paying user output is shown. */
  lemma UsersShown(es: seq<Output>, o: Output)
    requires UsersFit(es) && o in es && o.isUser && o.value > 0
    ensures o in Run(EMPTY, es).outputs
  {
    hide Run, Aggregated, Dropped, UsersFit;
    UsersKept(es);
    Tiling(es);
    var l := Run(EMPTY, es);
    assert o in multiset(es);
    assert o in multiset(l.outputs) || o in multiset(Aggregated(EMPTY, es)) || o in multiset(Dropped(EMPTY, es));
  }

  const NOTHING: Output := Output(0, "", false)

  lemma {:induction false} ZerosPin(n: nat)
    requires n <= MAX_OUTPUTS
    ensures Pins(seq(n, _ => NOTHING)) == n
  {
    if n == 0 {
    } else {
      ZerosPin(n - 1);
      assert seq(n, _ => NOTHING)[..n - 1] == seq(n - 1, _ => NOTHING);
    }
  }

  /** After as many zero-value outputs as the table holds, a paying user output goes to the bucket. */
  lemma UserLost(o: Output)
    requires o.isUser && o.value > 0
    ensures o in Aggregated(EMPTY, seq(MAX_OUTPUTS, _ => NOTHING) + [o])
  {
    var zeros := seq(MAX_OUTPUTS, _ => NOTHING);
    var es := zeros + [o];
    hide Pins, Run, Aggregated, Dropped;
    ZerosPin(MAX_OUTPUTS);
    assert es[..MAX_OUTPUTS] == zeros && es[MAX_OUTPUTS] == o;
    assert !UsersFit(es);
    UsersKept(es);
    var p :| p in Aggregated(EMPTY, es) && p.isUser;
    Tiling(es);
    assert p in multiset(Aggregated(EMPTY, es));
    assert p in multiset(es);
  }

  // ---------------------------------------------------------------- the final order

  function Users(outs: seq<Output>): seq<Output> {
    if outs == [] then []
    else Users(outs[..|outs| - 1]) + if outs[|outs| - 1].isUser then [outs[|outs| - 1]] else []
  }

  function Others(outs: seq<Output>): seq<Output> {
    if outs == [] then []
    else Others(outs[..|outs| - 1]) + if outs[|outs| - 1].isUser then [] else [outs[|outs| - 1]]
  }

  /** User outputs first, both groups in their old order. */
  function UsersFirst(outs: seq<Output>): seq<Output> {
    Users(outs) + Others(outs)
  }

  lemma UsersFirstShape(outs: seq<Output>)
    ensures |Users(outs)| + |Others(outs)| == |outs|
    ensures forall o :: o in Users(outs) ==> o.isUser
    ensures forall o :: o in Others(outs) ==> !o.isUser
    ensures multiset(UsersFirst(outs)) == multiset(outs)
  {
    hide Users, Others;
    SidesPure(outs);
    SidesTile(outs);
  }

  lemma {:induction false} SidesPure(outs: seq<Output>)
    ensures |Users(outs)| + |Others(outs)| == |outs|
    ensures forall o :: o in Users(outs) ==> o.isUser
    ensures forall o :: o in Others(outs) ==> !o.isUser
  {
    if outs == [] {
    } else {
      var init, o := outs[..|outs| - 1], outs[|outs| - 1];
      SidesPure(init);
      assert outs == init + [o];
      UsersLast(outs, init, o);
      hide Users, Others;
    }
  }

  lemma {:induction false} SidesTile(outs: seq<Output>)
    ensures multiset(Users(outs)) + multiset(Others(outs)) == multiset(outs)
  {
    if outs == [] {
    } else {
      var init, o := outs[..|outs| - 1], outs[|outs| - 1];
      SidesTile(init);
      assert outs == init + [o];
      UsersLast(outs, init, o);
      SnocMultiset(init, o);
      SnocMultiset(Users(init), o);
      SnocMultiset(Others(init), o);
      SideGrows(multiset(Users(init)), multiset(Others(init)), multiset(init), multiset{o});
    }
  }

  lemma SnocMultiset(a: seq<Output>, o: Output)
    ensures multiset(a + [o]) == multiset(a) + multiset{o}
  {
  }

  lemma SideGrows(u: multiset<Output>, v: multiset<Output>, all: multiset<Output>, one: multiset<Output>)
    requires u + v == all
    ensures (u + one) + v == all + one && u + (v + one) == all + one
  {
  }

  lemma {:induction false} UsersFirstSum(outs: seq<Output>)
    ensures Sum(Users(outs)) + Sum(Others(outs)) == Sum(outs)
    ensures Sum(UsersFirst(outs)) == Sum(outs)
    decreases |outs|
  {
    hide Sum;
    SumConcat(Users(outs), Others(outs));
    if outs == [] {
      SumNone();
    } else {
      var init, o := outs[..|outs| - 1], outs[|outs| - 1];
      UsersFirstSum(init);
      assert outs == init + [o];
      SumSnoc(init, o);
      UsersLast(outs, init, o);
      if o.isUser {
        SumSnoc(Users(init), o);
      } else {
        SumSnoc(Others(init), o);
      }
    }
  }

  lemma UsersLast(outs: seq<Output>, init: seq<Output>, o: Output)
    requires outs == init + [o]
    ensures Users(outs) == (if o.isUser then Users(init) + [o] else Users(init))
    ensures Others(outs) == (if o.isUser then Others(init) else Others(init) + [o])
  {
    assert outs[..|outs| - 1] == init;
  }

  // ---------------------------------------------------------------- the user's share

  lemma {:induction false} UsersConcat(a: seq<Output>, b: seq<Output>)
    ensures Users(a + b) == Users(a) + Users(b) && Others(a + b) == Others(a) + Others(b)
  {
    if b == [] {
      assert a + b == a;
    } else {
      var init, o := b[..|b| - 1], b[|b| - 1];
      assert (a + b)[..|a + b| - 1] == a + init;
      UsersConcat(a, init);
    }
  }

  /** What the user's outputs among `outs` are worth. */
  function Share(outs: seq<Output>): nat {
    Sum(Users(outs))
  }

  lemma ShareConcat(a: seq<Output>, b: seq<Output>)
    ensures Share(a + b) == Share(a) + Share(b)
  {
    hide Sum, Users;
    UsersConcat(a, b);
    SumConcat(Users(a), Users(b));
  }

  lemma ShareOne(o: Output)
    ensures Share([o]) == if o.isUser then o.value else 0
  {
    hide Sum;
    assert [o] == [] + [o];
    UsersLast([o], [], o);
    SumSingle(o);
    SumNone();
  }

  lemma ShareNone()
    ensures Share([]) == 0
  {
    assert Users([]) == [];
  }

  lemma ShareUpdate(outs: seq<Output>, k: nat, o: Output)
    requires k < |outs|
    ensures Share(outs[k := o]) + Share([outs[k]]) == Share(outs) + Share([o])
  {
    hide Share;
    assert outs == outs[..k] + [outs[k]] + outs[k + 1..];
    assert outs[k := o] == outs[..k] + [o] + outs[k + 1..];
    ShareConcat(outs[..k] + [outs[k]], outs[k + 1..]);
    ShareConcat(outs[..k], [outs[k]]);
    ShareConcat(outs[..k] + [o], outs[k + 1..]);
    ShareConcat(outs[..k], [o]);
  }

  lemma ShareStep(l: Ledger, o: Output)
    ensures Share(Store(l, o).outputs) + Share(Aggregates(l, o)) == Share(l.outputs) + Share([o])
  {
    hide EvictIndex, Share;
    ShareConcat(l.outputs, [o]);
    ShareNone();
    ShareOne(o);
    var k := EvictIndex(l.outputs, |l.outputs|);
    if k >= 0 {
      ShareUpdate(l.outputs, k, o);
    }
  }

  /** The user's share of what was seen is in the table or, for the part that found no place, in the bucket. */
  lemma {:induction false} ShareConserved(es: seq<Output>)
    ensures Share(Run(EMPTY, es).outputs) + Share(Aggregated(EMPTY, es)) == Share(es)
    decreases |es|
  {
    hide Store, Aggregates, Share;
    if es == [] {
      ShareNone();
    } else {
      var init, o := es[..|es| - 1], es[|es| - 1];
      ShareConserved(init);
      ShareStep(Run(EMPTY, init), o);
      assert es == init + [o];
      ShareConcat(init, [o]);
      ShareConcat(Aggregated(EMPTY, init), Aggregates(Run(EMPTY, init), o));
    }
  }

  lemma {:induction false} NoShare(outs: seq<Output>)
    requires NoUser(outs)
    ensures Users(outs) == []
  {
    if outs == [] {
    } else {
      var init := outs[..|outs| - 1];
      assert forall o :: o in init ==> o in outs;
      assert outs[|outs| - 1] in outs;
      NoShare(init);
    }
  }

  lemma {:induction false} AllShare(outs: seq<Output>)
    requires forall o :: o in outs ==> o.isUser
    ensures Users(outs) == outs
  {
    if outs == [] {
    } else {
      var init, o := outs[..|outs| - 1], outs[|outs| - 1];
      forall x | x in init ensures x.isUser {
        assert x in outs;
      }
      AllShare(init);
      hide Users;
      assert outs == init + [o];
      assert o in outs;
      UsersLast(outs, init, o);
    }
  }

  /** The partition does not change the user's share. */
  lemma ShareOrdered(outs: seq<Output>)
    ensures Users(UsersFirst(outs)) == Users(outs)
  {
    hide Users, Others;
    UsersFirstShape(outs);
    UsersConcat(Users(outs), Others(outs));
    AllShare(Users(outs));
    NoShare(Others(outs));
  }

  /** When the user's outputs fit, all of the user's share is shown. */
  lemma ShareShown(es: seq<Output>)
    requires UsersFit(es)
    ensures Share(UsersFirst(Run(EMPTY, es).outputs)) == Share(es)
  {
    hide Run, Aggregated, Users, UsersFirst, UsersFit, NoUser;
    UsersKept(es);
    NoShare(Aggregated(EMPTY, es));
    SumNone();
    ShareConserved(es);
    ShareOrdered(Run(EMPTY, es).outputs);
  }

  /** Nothing is shown that was not seen. */
  lemma {:induction false} ShownWereSeen(es: seq<Output>)
    ensures forall o :: o in Run(EMPTY, es).outputs ==> o in es
  {
    hide EvictIndex;
    if es == [] {
    } else {
      var init := es[..|es| - 1];
      ShownWereSeen(init);
      forall o | o in Run(EMPTY, es).outputs
        ensures o in es
      {
        assert o in Run(EMPTY, init).outputs || o == es[|es| - 1];
        assert o in init ==> o in es;
      }
    }
  }

  /** A full table changes exactly when there is a candidate to evict and the newcomer is the user's or worth more
      than the smallest of them. */
  lemma TableChanges(l: Ledger, o: Output)
    requires |l.outputs| == MAX_OUTPUTS && o.value > 0
    ensures Store(l, o).outputs != l.outputs
       <==> exists x :: x in l.outputs && Evictable(x) && (o.isUser || x.value < o.value)
  {
    var k := EvictIndex(l.outputs, |l.outputs|);
    if k >= 0 {
      assert l.outputs[k] in l.outputs;
    }
  }
}
