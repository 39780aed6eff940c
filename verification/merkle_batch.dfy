/** `BatchMerkleTree` (`merkle.rs`): leaves are staged, then appended in
    order by `commit`; `root` previews the root with the staged leaves in.
    It is modelled over the intended tree of `MerkleFrontier`. */
module MerkleBatch {
  import opened CryptoTypes
  import opened ByteCodec
  import opened MerkleCommon
  import opened MerkleFrontier

  datatype BatchTree = BatchTree(tree: Tree, pending: seq<Digest>)

  function NewBatch(p: TreeParams): (b: BatchTree)
    ensures b.tree == New(p) && b.pending == []
  {
    BatchTree(New(p), [])
  }

  /** `stage`: queues the leaf; the tree is untouched. */
  function Stage(b: BatchTree, leaf: Digest): (b': BatchTree)
    ensures b'.tree == b.tree && b'.pending == b.pending + [leaf]
  {
    b.(pending := b.pending + [leaf])
  }

  /** How many of `count` leaves fit in a tree holding `n` of `cap`. */
  function Taken(n: nat, cap: nat, count: nat): (k: nat)
    ensures k <= count
    ensures n + count <= cap ==> k == count
    ensures n + count > cap ==> n + k == (if n <= cap then cap else n)
  {
    if n >= cap then 0 else if n + count <= cap then count else cap - n
  }

  /** The loop of `commit`: each leaf is appended in order, and the first
      failing append ends the loop with its error, the leaves before it
      staying appended. */
  function CommitLoop(p: TreeParams, t: Tree, leaves: seq<Digest>): (r: (Tree, Result<seq<nat>>))
    requires |t.frontier| == p.depth + 1
    ensures |r.0.frontier| == p.depth + 1
    ensures r.1.Ok? <==> |leaves| == 0 || |t.leaves| + |leaves| <= Capacity(p)
    ensures r.1.Ok? ==> |r.1.value| == |leaves|
    ensures r.1.Ok? ==> forall i :: 0 <= i < |leaves| ==> r.1.value[i] == |t.leaves| + i
    ensures r.1.Err? ==> r.1.error == MerkleError("Tree is full")
    ensures r.0.leaves == t.leaves + leaves[..Taken(|t.leaves|, Capacity(p), |leaves|)]
    decreases |leaves|
  {
    if |leaves| == 0 then (t, Ok([]))
    else
      var (t1, r1) := Append(p, t, leaves[0]);
      if r1.Err? then (t1, Err(r1.error))
      else
        var (t2, rest) := CommitLoop(p, t1, leaves[1..]);
        assert t1.leaves + leaves[1..][..Taken(|t1.leaves|, Capacity(p), |leaves| - 1)]
            == t.leaves + leaves[..Taken(|t.leaves|, Capacity(p), |leaves|)];
        (t2, if rest.Ok? then Ok([r1.value] + rest.value) else rest)
  }

  /** `commit`: the staged leaves go in, in order, and the staging list is
      drained whether or not every append succeeds. */
  function Commit(p: TreeParams, b: BatchTree): (r: (BatchTree, Result<seq<nat>>))
    requires |b.tree.frontier| == p.depth + 1
    ensures r.0.pending == []
    ensures r.1.Ok? <==> |b.pending| == 0 || |b.tree.leaves| + |b.pending| <= Capacity(p)
    ensures r.1.Ok? ==> |r.1.value| == |b.pending|
    ensures r.1.Ok? ==> forall i :: 0 <= i < |b.pending| ==> r.1.value[i] == |b.tree.leaves| + i
    ensures r.0.tree.leaves == b.tree.leaves + b.pending[..Taken(|b.tree.leaves|, Capacity(p), |b.pending|)]
  {
    var (t, positions) := CommitLoop(p, b.tree, b.pending);
    (BatchTree(t, []), positions)
  }

  /** The appends of the preview in `root`, each result discarded. */
  function AppendAll(p: TreeParams, t: Tree, leaves: seq<Digest>): (t': Tree)
    requires |t.frontier| == p.depth + 1
    ensures |t'.frontier| == p.depth + 1
    decreases |leaves|
  {
    if |leaves| == 0 then t else AppendAll(p, Append(p, t, leaves[0]).0, leaves[1..])
  }

  /** `root`: the tree's own root with nothing staged, else the root of a
      copy with every staged leaf appended. */
  function BatchRoot(p: TreeParams, b: BatchTree): (r: Digest)
    requires |b.tree.frontier| == p.depth + 1
    ensures r == Root(p, Commit(p, b).0.tree)
  {
    AppendAllIsCommitLoop(p, b.tree, b.pending);
    if |b.pending| == 0 then Root(p, b.tree) else Root(p, AppendAll(p, b.tree, b.pending))
  }

  /** Appends to a full tree all fail and change nothing. */
  lemma {:induction false} AppendAllWhenFull(p: TreeParams, t: Tree, leaves: seq<Digest>)
    requires |t.frontier| == p.depth + 1 && |t.leaves| >= Capacity(p)
    ensures AppendAll(p, t, leaves) == t
    decreases |leaves|
  {
    if |leaves| > 0 {
      AppendAllWhenFull(p, t, leaves[1..]);
    }
  }

  /** Ignoring errors ends in the same tree as stopping at the first one. */
  lemma {:induction false} AppendAllIsCommitLoop(p: TreeParams, t: Tree, leaves: seq<Digest>)
    requires |t.frontier| == p.depth + 1
    ensures AppendAll(p, t, leaves) == CommitLoop(p, t, leaves).0
    decreases |leaves|
  {
    if |leaves| > 0 {
      var (t1, r1) := Append(p, t, leaves[0]);
      if r1.Err? {
        AppendAllWhenFull(p, t1, leaves[1..]);
      } else {
        AppendAllIsCommitLoop(p, t1, leaves[1..]);
      }
    }
  }

  /** Committing keeps the tree valid. */
  lemma {:induction false} CommitLoopKeepsValid(p: TreeParams, t: Tree, leaves: seq<Digest>)
    requires Valid(p, t)
    ensures Valid(p, CommitLoop(p, t, leaves).0)
    decreases |leaves|
  {
    if |leaves| > 0 {
      AppendKeepsValid(p, t, leaves[0]);
      CommitLoopKeepsValid(p, Append(p, t, leaves[0]).0, leaves[1..]);
    }
  }

  /** Over a valid tree, the preview is the padded root of the committed
      leaves followed by the staged leaves that fit. */
  lemma BatchRootIsPaddedRoot(p: TreeParams, b: BatchTree)
    requires Valid(p, b.tree)
    ensures BatchRoot(p, b)
         == PaddedRoot(p, b.tree.leaves + b.pending[..Taken(|b.tree.leaves|, Capacity(p), |b.pending|)])
  {
    CommitLoopKeepsValid(p, b.tree, b.pending);
  }
}
