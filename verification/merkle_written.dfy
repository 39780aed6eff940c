/** `IncrementalMerkleTree` exactly as `merkle.rs` writes it. Two details of
    the code decide its behaviour:
    - `update_frontier` truncates the frontier to `len - 1` of a one-element
      vector, that is to nothing, so after the first append the frontier is
      the single node the last append finished on;
    - `get_node` has an empty node cache and answers with the empty subtree
      for every node but `frontier[0]` at level 0.
    The tree is right for one leaf and wrong from two leaves on: the proof of
    leaf 0 in a tree of two leaves fails against the tree's own root. */
module MerkleWritten {
  import opened CryptoTypes
  import opened ByteCodec
  import opened MerkleCommon

  datatype TreeW = TreeW(numLeaves: nat, frontier: seq<Digest>)

  /** The shape every reachable tree has: no frontier while empty, exactly
      one frontier node afterwards. */
  predicate ValidW(t: TreeW)
  {
    (t.numLeaves == 0 <==> |t.frontier| == 0) && |t.frontier| <= 1
  }

  function NewW(): (t: TreeW)
    ensures t.numLeaves == 0 && ValidW(t)
  {
    TreeW(0, [])
  }

  /** `Vec::truncate`: keeps the first `n` elements, or all of them. */
  function Truncate(s: seq<Digest>, n: nat): (r: seq<Digest>)
    ensures |r| == if n < |s| then n else |s|
    ensures r <= s
  {
    if n < |s| then s[..n] else s
  }

  /** The loop of `update_frontier` from `level` on: the node it pushes at
      the first even index, or `None` when every index up to the top is odd. */
  function FrontierStep(p: TreeParams, frontier: seq<Digest>, level: nat, index: nat, current: Digest): Option<Digest>
    decreases p.depth - level
  {
    if level >= p.depth then None
    else if index % 2 == 0 then Some(current)
    else
      var sibling := if level < |frontier| then frontier[level] else Empty(p, level);
      FrontierStep(p, frontier, level + 1, index / 2, p.hash(sibling, current))
  }

  /** The new frontier: `truncate(len - 1)` and `extend` with the one pushed
      node, or the old frontier when nothing was pushed. */
  function UpdateFrontier(p: TreeParams, t: TreeW, leaf: Digest): seq<Digest>
  {
    match FrontierStep(p, t.frontier, 0, t.numLeaves, leaf)
    case Some(current) =>
      var pushed := [current];
      Truncate(t.frontier, |pushed| - 1) + pushed
    case None => t.frontier
  }

  /** `append`: the leaf's position, or `MerkleError` once `2^depth` leaves
      are in. */
  function AppendW(p: TreeParams, t: TreeW, leaf: Digest): (r: (TreeW, Result<nat>))
    ensures r.1.Ok? <==> t.numLeaves < Capacity(p)
    ensures r.1.Ok? ==> r.1.value == t.numLeaves && r.0.numLeaves == t.numLeaves + 1
    ensures r.1.Err? ==> r.0 == t && r.1.error == MerkleError("Tree is full")
    ensures ValidW(t) && p.depth > 0 ==> ValidW(r.0)
  {
    if t.numLeaves >= Pow2(p.depth) then (t, Err(MerkleError("Tree is full")))
    else (TreeW(t.numLeaves + 1, UpdateFrontier(p, t, leaf)), Ok(t.numLeaves))
  }

  /** The loop of `root` from `level` on, both of its branches; in a valid
      tree the first branch never runs, because `frontier.len() - 1` is 0. */
  function RootFrom(p: TreeParams, frontier: seq<Digest>, level: nat, current: Digest, lastIndex: nat): Digest
    decreases p.depth - level
  {
    if level >= p.depth then current
    else
      var next :=
        if level + 1 < |frontier| then
          (if Shr(lastIndex, level + 1) % 2 == 1 then p.hash(frontier[level + 1], current) else current)
        else PadStep(p, level, current, lastIndex);
      RootFrom(p, frontier, level + 1, next, lastIndex)
  }

  /** `root`: the empty root for no leaves, else a walk from `frontier[0]`. */
  function RootW(p: TreeParams, t: TreeW): (r: Digest)
    requires ValidW(t)
    ensures t.numLeaves > 0 ==> r == Walk(p, t.frontier[0], t.numLeaves - 1, EmptyPath(p, 0))
  {
    if t.numLeaves == 0 then Empty(p, p.depth)
    else
      RootFromIsWalk(p, t.frontier, 0, t.frontier[0], t.numLeaves - 1);
      RootFrom(p, t.frontier, 0, t.frontier[0], t.numLeaves - 1)
  }

  /** With at most one frontier node the root loop pads with empty subtrees
      at every level. */
  lemma {:induction false} RootFromIsWalk(p: TreeParams, frontier: seq<Digest>, level: nat, current: Digest, lastIndex: nat)
    requires |frontier| <= 1
    requires level <= p.depth
    ensures RootFrom(p, frontier, level, current, lastIndex)
         == Walk(p, current, Shr(lastIndex, level), EmptyPath(p, level))
    decreases p.depth - level
  {
    if level < p.depth {
      var path := EmptyPath(p, level);
      assert path[1..] == EmptyPath(p, level + 1);
      RootFromIsWalk(p, frontier, level + 1, PadStep(p, level, current, lastIndex), lastIndex);
    }
  }

  /** The padding branch of the root loop: the empty subtree as sibling, on
      the side the last leaf's index bit says. */
  function PadStep(p: TreeParams, level: nat, current: Digest, lastIndex: nat): Digest
  {
    if Shr(lastIndex, level) % 2 == 0 then p.hash(current, Empty(p, level))
    else p.hash(Empty(p, level), current)
  }

  /** `get_node`: the cache is never filled, so only `frontier[level]` at the
      last leaf's index is known; everything else is the empty subtree. */
  function GetNodeW(p: TreeParams, t: TreeW, level: nat, index: nat): (d: Digest)
    requires t.numLeaves > 0
    ensures level >= |t.frontier| ==> d == Empty(p, level)
  {
    if level < |t.frontier| && index == Shr(t.numLeaves - 1, level) then t.frontier[level]
    else Empty(p, level)
  }

  /** The path loop of `prove`: the sibling index is compared with the leaf
      count at every level. */
  function ProvePathW(p: TreeParams, t: TreeW, level: nat, index: nat): (path: seq<Digest>)
    requires level <= p.depth
    ensures |path| == p.depth - level
    decreases p.depth - level
  {
    if level == p.depth then []
    else
      var siblingIndex := Sib(index);
      var sibling := if siblingIndex < t.numLeaves then GetNodeW(p, t, level, siblingIndex) else Empty(p, level);
      [sibling] + ProvePathW(p, t, level + 1, index / 2)
  }

  /** `prove`: a path of `depth` siblings, or `MerkleError` past the last leaf. */
  function ProveW(p: TreeParams, t: TreeW, position: nat): (r: Result<MerkleProof>)
    ensures r.Ok? <==> position < t.numLeaves
    ensures r.Ok? ==> r.value.position == position && |r.value.path| == p.depth
    ensures r.Err? ==> r.error == MerkleError("Position out of bounds")
  {
    if position >= t.numLeaves then Err(MerkleError("Position out of bounds"))
    else Ok(MerkleProof(ProvePathW(p, t, 0, position), position))
  }

  /** Once the frontier has been passed (or only one leaf exists), index 0
      gets only empty siblings. */
  lemma {:induction false} ProvePathOfZero(p: TreeParams, t: TreeW, level: nat)
    requires ValidW(t) && level <= p.depth
    requires level >= |t.frontier| || t.numLeaves <= 1
    ensures ProvePathW(p, t, level, 0) == EmptyPath(p, level)
    decreases p.depth - level
  {
    if level < p.depth {
      ProvePathOfZero(p, t, level + 1);
    }
  }

  // ---------------------------------------------------------------------
  // What the tree gets right, and where it goes wrong.

  /** One leaf: its proof is the path of empty subtrees, and it verifies. */
  lemma SingleLeafProofVerifies(p: TreeParams, leaf: Digest)
    requires p.depth > 0
    ensures AppendW(p, NewW(), leaf).1 == Ok(0)
    ensures ProveW(p, AppendW(p, NewW(), leaf).0, 0).Ok?
    ensures Verify(p, ProveW(p, AppendW(p, NewW(), leaf).0, 0).value, leaf, RootW(p, AppendW(p, NewW(), leaf).0))
  {
    var t := AppendW(p, NewW(), leaf).0;
    assert t.frontier == [leaf];
    ProvePathOfZero(p, t, 0);
  }

  /** A node hash is left-cancellative when the right child fixed, distinct
      left children hash apart: what collision resistance gives in practice. */
  ghost predicate LeftCancellative(h: NodeHash)
  {
    forall x: Digest, y: Digest, z: Digest :: h(x, z) == h(y, z) ==> x == y
  }

  /** Walking up as the leftmost node is injective under such a hash. */
  lemma {:induction false} WalkLeftmostInjective(p: TreeParams, x: Digest, y: Digest, path: seq<Digest>)
    requires LeftCancellative(p.hash)
    requires Walk(p, x, 0, path) == Walk(p, y, 0, path)
    ensures x == y
    decreases |path|
  {
    if |path| > 0 {
      WalkLeftmostInjective(p, p.hash(x, path[0]), p.hash(y, path[0]), path[1..]);
    }
  }

  /** The tree after appending `a` then `b` to an empty tree of depth at
      least 2: its frontier is the single node `hash(a, b)`. */
  lemma TwoLeafShape(p: TreeParams, a: Digest, b: Digest)
    requires p.depth >= 2
    ensures AppendW(p, AppendW(p, NewW(), a).0, b).0 == TreeW(2, [p.hash(a, b)])
  {
    var t1 := AppendW(p, NewW(), a).0;
    assert t1 == TreeW(1, [a]);
    assert FrontierStep(p, [a], 1, 0, p.hash(a, b)) == Some(p.hash(a, b));
    assert FrontierStep(p, [a], 0, 1, b) == Some(p.hash(a, b));
  }

  /** Leaf 0 of a two-leaf tree: its proof does not verify against the root
      the same tree reports, for any non-zero leaf under a left-cancellative
      hash. */
  lemma TwoLeafProofFails(p: TreeParams, a: Digest, b: Digest)
    requires p.depth >= 2
    requires LeftCancellative(p.hash)
    requires a != ZeroDigest
    ensures ProveW(p, AppendW(p, AppendW(p, NewW(), a).0, b).0, 0).Ok?
    ensures !Verify(p, ProveW(p, AppendW(p, AppendW(p, NewW(), a).0, b).0, 0).value, a,
                    RootW(p, AppendW(p, AppendW(p, NewW(), a).0, b).0))
  {
    var t := AppendW(p, AppendW(p, NewW(), a).0, b).0;
    TwoLeafShape(p, a, b);
    var hab := p.hash(a, b);
    var rest := EmptyPath(p, 1);
    // The root: `hab` is walked up from level 0 as if it were leaf 1.
    assert EmptyPath(p, 0)[1..] == rest;
    assert RootW(p, t) == Walk(p, p.hash(ZeroDigest, hab), 0, rest);
    // The proof: `hab` as leaf 0's sibling, then empty subtrees.
    ProvePathOfZero(p, t, 1);
    var path := ProvePathW(p, t, 0, 0);
    assert path == [hab] + rest;
    assert path[1..] == rest;
    assert Walk(p, a, 0, path) == Walk(p, p.hash(a, hab), 0, rest);
    if Walk(p, a, 0, path) == RootW(p, t) {
      WalkLeftmostInjective(p, p.hash(a, hab), p.hash(ZeroDigest, hab), rest);
    }
  }

  /** The hash that keeps its left child is left-cancellative, so the
      hypothesis of `TwoLeafProofFails` can be met. */
  lemma KeepLeftIsCancellative()
    ensures LeftCancellative((l: Digest, r: Digest) => l)
  {
  }
}
