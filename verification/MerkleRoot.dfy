/** The Merkle root of a block whose coinbase has just been replaced, from the branches the pool sends.
    The hash of two joined nodes is uninterpreted. */
module MerkleRoot {
  import opened Numerals

  type Hash = s: seq<Byte> | |s| == 32 witness seq(32, _ => 0)

  datatype Tree = Leaf(hash: Hash) | Node(left: Tree, right: Tree)

  function Root(h: seq<Byte> -> Hash, t: Tree): Hash {
    match t
    case Leaf(x) => x
    case Node(l, r) => h(Root(h, l) + Root(h, r))
  }

  /** The nodes beside the path from the first leaf to the root, lowest first: what a pool announces. */
  function Branches(h: seq<Byte> -> Hash, t: Tree): seq<Hash> {
    match t
    case Leaf(_) => []
    case Node(l, r) => Branches(h, l) + [Root(h, r)]
  }

  /** The same tree with another coinbase. */
  function WithFirst(t: Tree, x: Hash): Tree {
    match t
    case Leaf(_) => Leaf(x)
    case Node(l, r) => Node(WithFirst(l, x), r)
  }

  function Climb(h: seq<Byte> -> Hash, x: Hash, branches: seq<Hash>): Hash {
    if branches == [] then x
    else h(Climb(h, x, branches[..|branches| - 1]) + branches[|branches| - 1])
  }

  /** Climbing from the new coinbase over the old branches gives the root of the changed tree. */
  lemma {:induction false} ClimbIsRoot(h: seq<Byte> -> Hash, t: Tree, x: Hash)
    ensures Climb(h, x, Branches(h, t)) == Root(h, WithFirst(t, x))
  {
    if t.Leaf? {
    } else {
      var b := Branches(h, t);
      assert b[..|b| - 1] == Branches(h, t.left);
      ClimbIsRoot(h, t.left, x);
    }
  }

  /** `calculate_merkle_root_hash`: one 64-byte buffer, hashed into its own front half. */
  method CalculateMerkleRootHash(h: seq<Byte> -> Hash, coinbase: Hash, branches: seq<Hash>) returns (root: Hash)
    ensures root == Climb(h, coinbase, branches)
    ensures forall t :: Branches(h, t) == branches ==> root == Root(h, WithFirst(t, coinbase))
  {
    var both := new Byte[64](_ => 0);
    forall k | 0 <= k < 32 {
      both[k] := coinbase[k];
    }
    assert both[..32] == coinbase;
    var i := 0;
    while i < |branches|
      invariant 0 <= i <= |branches|
      invariant both[..32] == Climb(h, coinbase, branches[..i])
    {
      ghost var front := both[..32];
      forall k | 0 <= k < 32 {
        both[32 + k] := branches[i][k];
      }
      assert both[..] == front + branches[i];
      var digest := h(both[..]);
      forall k | 0 <= k < 32 {
        both[k] := digest[k];
      }
      assert both[..32] == digest;
      assert branches[..i + 1][..i] == branches[..i];
      i := i + 1;
    }
    assert branches[..i] == branches;
    forall t | Branches(h, t) == branches ensures both[..32] == Root(h, WithFirst(t, coinbase)) {
      ClimbIsRoot(h, t, coinbase);
    }
    root := both[..32];
  }

  // ---------------------------------------------------------------- the tree of a block

  /** One level up: neighbours are paired, and an odd last node is paired with itself. */
  function Pairs(ts: seq<Tree>): (r: seq<Tree>)
    ensures |r| == (|ts| + 1) / 2
    decreases ts
  {
    if ts == [] then []
    else if |ts| == 1 then [Node(ts[0], ts[0])]
    else [Node(ts[0], ts[1])] + Pairs(ts[2..])
  }

  /** The tree of a block over the nodes of one level. */
  function Over(ts: seq<Tree>): Tree
    requires ts != []
    decreases |ts|
  {
    if |ts| == 1 then ts[0] else Over(Pairs(ts))
  }

  function Leaves(ids: seq<Hash>): (ts: seq<Tree>)
    ensures |ts| == |ids|
  {
    seq(|ids|, i requires 0 <= i < |ids| => Leaf(ids[i]))
  }

  /** The root of a block with the transactions `ids`, level by level: what Bitcoin commits to. */
  function BlockRoot(h: seq<Byte> -> Hash, ids: seq<Hash>): Hash
    requires ids != []
    decreases |ids|
  {
    if |ids| == 1 then ids[0] else BlockRoot(h, Level(h, ids))
  }

  function Level(h: seq<Byte> -> Hash, ids: seq<Hash>): (r: seq<Hash>)
    ensures |r| == (|ids| + 1) / 2
    decreases |ids|
  {
    if ids == [] then []
    else if |ids| == 1 then [Join(h, ids[0], ids[0])]
    else [Join(h, ids[0], ids[1])] + Level(h, ids[2..])
  }

  function Join(h: seq<Byte> -> Hash, left: Hash, right: Hash): Hash {
    h(left + right)
  }

  function Roots(h: seq<Byte> -> Hash, ts: seq<Tree>): (r: seq<Hash>)
    ensures |r| == |ts|
  {
    seq(|ts|, i requires 0 <= i < |ts| => Root(h, ts[i]))
  }

  lemma {:induction false} PairsIsLevel(h: seq<Byte> -> Hash, ts: seq<Tree>)
    ensures Roots(h, Pairs(ts)) == Level(h, Roots(h, ts))
    decreases ts
  {
    if |ts| >= 2 {
      PairsIsLevel(h, ts[2..]);
      assert Roots(h, ts)[2..] == Roots(h, ts[2..]);
    }
  }

  lemma {:induction false} OverIsBlockRoot(h: seq<Byte> -> Hash, ts: seq<Tree>)
    requires ts != []
    ensures Root(h, Over(ts)) == BlockRoot(h, Roots(h, ts))
    decreases |ts|
  {
    hide Root;
    if |ts| > 1 {
      PairsIsLevel(h, ts);
      OverIsBlockRoot(h, Pairs(ts));
    }
  }

  /** Changing the first leaf of a level with several nodes changes nothing but the first leaf of the level above. */
  lemma {:induction false} OverWithFirst(ts: seq<Tree>, x: Hash)
    requires ts != []
    ensures WithFirst(Over(ts), x) == Over(ts[0 := WithFirst(ts[0], x)])
    decreases |ts|
  {
    if |ts| > 1 {
      var us := ts[0 := WithFirst(ts[0], x)];
      assert us[2..] == ts[2..];
      assert Pairs(us) == Pairs(ts)[0 := WithFirst(Pairs(ts)[0], x)];
      OverWithFirst(Pairs(ts), x);
    }
  }

  /** Climbing from another coinbase over the branches of a block gives the root of the block with that coinbase,
      however many transactions it has. */
  lemma ClimbIsBlockRoot(h: seq<Byte> -> Hash, ids: seq<Hash>, x: Hash)
    requires ids != []
    ensures Climb(h, x, Branches(h, Over(Leaves(ids)))) == BlockRoot(h, ids[0 := x])
  {
    hide Climb, Branches, Over, BlockRoot;
    var ts := Leaves(ids);
    ClimbIsRoot(h, Over(ts), x);
    OverWithFirst(ts, x);
    assert ts[0 := WithFirst(ts[0], x)] == Leaves(ids[0 := x]);
    OverIsBlockRoot(h, Leaves(ids[0 := x]));
    assert Roots(h, Leaves(ids[0 := x])) == ids[0 := x];
  }
}
