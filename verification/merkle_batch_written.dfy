/** `BatchMerkleTree` (`merkle.rs`) over the `IncrementalMerkleTree` it
    actually wraps, the tree as written of `MerkleWritten`. Staging,
    `commit` and the root preview behave as in `MerkleBatch`; only the
    underlying tree differs. */
module MerkleBatchWritten {
  import opened CryptoTypes
  import opened ByteCodec
  import opened MerkleCommon
  import opened MerkleWritten
  import MerkleBatch

  datatype BatchTreeW = BatchTreeW(tree: TreeW, pending: seq<Digest>)

  function NewBatchW(): (b: BatchTreeW)
    ensures b.tree == NewW() && b.pending == []
  {
    BatchTreeW(NewW(), [])
  }

  /** `stage`, mirroring `MerkleBatch.Stage` over the tree as written:
      queues the leaf; the tree is untouched. */
  function StageW(b: BatchTreeW, leaf: Digest): (b': BatchTreeW)
    ensures b'.tree == b.tree && b'.pending == b.pending + [leaf]
  {
    b.(pending := b.pending + [leaf])
  }

  /** The loop of `commit`: each leaf is appended in order, and the first
      failing append ends the loop with its error. */
  function CommitLoopW(p: TreeParams, t: TreeW, leaves: seq<Digest>): (r: (TreeW, Result<seq<nat>>))
    ensures r.1.Ok? <==> |leaves| == 0 || t.numLeaves + |leaves| <= Capacity(p)
    ensures r.1.Ok? ==> |r.1.value| == |leaves|
    ensures r.1.Ok? ==> forall i :: 0 <= i < |leaves| ==> r.1.value[i] == t.numLeaves + i
    ensures r.1.Err? ==> r.1.error == MerkleError("Tree is full")
    ensures r.0.numLeaves == t.numLeaves + MerkleBatch.Taken(t.numLeaves, Capacity(p), |leaves|)
    ensures ValidW(t) && p.depth > 0 ==> ValidW(r.0)
    decreases |leaves|
  {
    if |leaves| == 0 then (t, Ok([]))
    else
      var (t1, r1) := AppendW(p, t, leaves[0]);
      if r1.Err? then (t1, Err(r1.error))
      else
        var (t2, rest) := CommitLoopW(p, t1, leaves[1..]);
        (t2, if rest.Ok? then Ok([r1.value] + rest.value) else rest)
  }

  /** `commit`: the staged leaves go in, in order, and the staging list is
      drained whether or not every append succeeds. */
  function CommitW(p: TreeParams, b: BatchTreeW): (r: (BatchTreeW, Result<seq<nat>>))
    ensures r.0.pending == []
    ensures r.1.Ok? <==> |b.pending| == 0 || b.tree.numLeaves + |b.pending| <= Capacity(p)
    ensures r.1.Ok? ==> |r.1.value| == |b.pending|
    ensures r.1.Ok? ==> forall i :: 0 <= i < |b.pending| ==> r.1.value[i] == b.tree.numLeaves + i
    ensures r.0.tree.numLeaves
         == b.tree.numLeaves + MerkleBatch.Taken(b.tree.numLeaves, Capacity(p), |b.pending|)
  {
    var (t, positions) := CommitLoopW(p, b.tree, b.pending);
    (BatchTreeW(t, []), positions)
  }

  /** The appends of the preview in `root`, each result discarded. */
  function AppendAllW(p: TreeParams, t: TreeW, leaves: seq<Digest>): TreeW
    decreases |leaves|
  {
    if |leaves| == 0 then t else AppendAllW(p, AppendW(p, t, leaves[0]).0, leaves[1..])
  }

  /** Appends to a full tree all fail and change nothing. */
  lemma {:induction false} AppendAllWWhenFull(p: TreeParams, t: TreeW, leaves: seq<Digest>)
    requires t.numLeaves >= Capacity(p)
    ensures AppendAllW(p, t, leaves) == t
    decreases |leaves|
  {
    if |leaves| > 0 {
      AppendAllWWhenFull(p, t, leaves[1..]);
    }
  }

  /** Ignoring errors ends in the same tree as stopping at the first one. */
  lemma {:induction false} AppendAllWIsCommitLoop(p: TreeParams, t: TreeW, leaves: seq<Digest>)
    ensures AppendAllW(p, t, leaves) == CommitLoopW(p, t, leaves).0
    decreases |leaves|
  {
    if |leaves| > 0 {
      var (t1, r1) := AppendW(p, t, leaves[0]);
      if r1.Err? {
        AppendAllWWhenFull(p, t1, leaves[1..]);
      } else {
        AppendAllWIsCommitLoop(p, t1, leaves[1..]);
      }
    }
  }

  /** `root`: the tree's own root with nothing staged, else the root of a
      copy with every staged leaf appended. The tree as written keeps its
      one-node frontier only below a positive depth; at depth 0 the root
      would index an empty frontier. */
  function BatchRootW(p: TreeParams, b: BatchTreeW): (r: Digest)
    requires ValidW(b.tree) && p.depth > 0
    ensures r == RootW(p, CommitW(p, b).0.tree)
  {
    AppendAllWIsCommitLoop(p, b.tree, b.pending);
    if |b.pending| == 0 then RootW(p, b.tree) else RootW(p, AppendAllW(p, b.tree, b.pending))
  }

  /** Staging two leaves into an empty batch tree previews the same root as
      appending them one by one to the tree as written. */
  lemma PreviewOfTwo(p: TreeParams, a: Digest, c: Digest)
    requires p.depth > 0
    ensures BatchRootW(p, StageW(StageW(NewBatchW(), a), c))
         == RootW(p, AppendW(p, AppendW(p, NewW(), a).0, c).0)
  {
    var b := StageW(StageW(NewBatchW(), a), c);
    var t1 := AppendW(p, NewW(), a).0;
    var t2 := AppendW(p, t1, c).0;
    assert b.pending == [a, c] && b.pending[1..] == [c];
    assert AppendAllW(p, t1, [c]) == AppendAllW(p, t2, []);
    assert AppendAllW(p, NewW(), b.pending) == t2;
  }
}
