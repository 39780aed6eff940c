/** The incremental Merkle tree of `merkle.rs` as its comments describe it:
    a left child becomes the frontier node of its level, a right child is
    combined with the frontier node to its left and carried one level up.
    The frontier keeps one slot per level and one for the full tree's root,
    and the appended leaves are kept, serving as the node cache `get_node`
    leaves unimplemented. Every root equals the padded reference root, and
    every proof verifies against it. */
module MerkleFrontier {
  import opened CryptoTypes
  import opened ByteCodec
  import opened MerkleCommon
  import opened NatArith

  datatype Tree = Tree(leaves: seq<Digest>, frontier: seq<Digest>)

  /** A level's frontier slot matters when the leaf count has an odd index
      there: it then holds the complete node just left of that index. */
  predicate Valid(p: TreeParams, t: Tree)
  {
    && |t.frontier| == p.depth + 1
    && |t.leaves| <= Pow2(p.depth)
    && forall k :: 0 <= k <= p.depth && Shr(|t.leaves|, k) % 2 == 1 ==>
         t.frontier[k] == Node(p, k, Shr(|t.leaves|, k) - 1, t.leaves)
  }

  lemma ShrOfZero(k: nat)
    ensures Shr(0, k) == 0
  {
  }

  function New(p: TreeParams): (t: Tree)
    ensures t.leaves == [] && Valid(p, t)
  {
    forall k | 0 <= k <= p.depth
      ensures Shr(0, k) == 0
    {
      ShrOfZero(k);
    }
    Tree([], seq(p.depth + 1, _ => ZeroDigest))
  }

  // ---------------------------------------------------------------------
  // Append.

  /** The frontier walk from `level` on: an even index (or the top) stores
      `current` in its slot and stops; an odd index hashes it under the
      frontier node to its left and goes up. */
  function Carry(p: TreeParams, frontier: seq<Digest>, level: nat, index: nat, current: Digest): (f: seq<Digest>)
    requires |frontier| == p.depth + 1 && level <= p.depth
    ensures |f| == |frontier|
    decreases p.depth - level
  {
    if level == p.depth || index % 2 == 0 then frontier[level := current]
    else Carry(p, frontier, level + 1, index / 2, p.hash(frontier[level], current))
  }

  /** `append`: the leaf's position, or `MerkleError` once `2^depth` leaves
      are in, with the tree then unchanged. */
  function Append(p: TreeParams, t: Tree, leaf: Digest): (r: (Tree, Result<nat>))
    requires |t.frontier| == p.depth + 1
    ensures r.1.Ok? <==> |t.leaves| < Capacity(p)
    ensures r.1.Ok? ==> r.1.value == |t.leaves| && r.0.leaves == t.leaves + [leaf]
    ensures r.1.Err? ==> r.0 == t && r.1.error == MerkleError("Tree is full")
    ensures |r.0.frontier| == p.depth + 1
  {
    var n := |t.leaves|;
    if n >= Pow2(p.depth) then (t, Err(MerkleError("Tree is full")))
    else (Tree(t.leaves + [leaf], Carry(p, t.frontier, 0, n, leaf)), Ok(n))
  }

  /** The first level from `level` on whose index is even, or the top. */
  function FirstEven(n: nat, level: nat, d: nat): (l: nat)
    requires level <= d
    ensures level <= l <= d
    ensures l == d || Shr(n, l) % 2 == 0
    ensures forall i :: level <= i < l ==> Shr(n, i) % 2 == 1
    decreases d - level
  {
    if level == d || Shr(n, level) % 2 == 0 then level else FirstEven(n, level + 1, d)
  }

  /** Adding one to n adds one to every index up to the first even one and
      leaves the indices above it alone. */
  lemma {:induction false} ShrSucc(n: nat, l: nat, k: nat)
    requires forall i :: 0 <= i < l ==> Shr(n, i) % 2 == 1
    requires Shr(n, l) % 2 == 0
    ensures k <= l ==> Shr(n + 1, k) == Shr(n, k) + 1
    ensures k > l ==> Shr(n + 1, k) == Shr(n, k)
  {
    if k > 0 {
      ShrSucc(n, l, k - 1);
    }
  }

  /** The carry stores, at the first even level, the node that now holds the
      new leaf, and touches no other slot. */
  lemma {:induction false} CarryStores(p: TreeParams, t: Tree, leaf: Digest, level: nat, current: Digest)
    requires Valid(p, t) && |t.leaves| < Pow2(p.depth)
    requires level <= p.depth
    requires current == Node(p, level, Shr(|t.leaves|, level), t.leaves + [leaf])
    ensures Carry(p, t.frontier, level, Shr(|t.leaves|, level), current)
         == t.frontier[FirstEven(|t.leaves|, level, p.depth)
                       := Node(p, FirstEven(|t.leaves|, level, p.depth),
                               Shr(|t.leaves|, FirstEven(|t.leaves|, level, p.depth)), t.leaves + [leaf])]
    decreases p.depth - level
  {
    var n := |t.leaves|;
    var i := Shr(n, level);
    if level < p.depth && i % 2 == 1 {
      ShrBounds(n, level);
      NodeOfPrefix(p, level, i - 1, t.leaves, [leaf]);
      assert 2 * (i / 2) + 1 == i;
      CarryStores(p, t, leaf, level + 1, p.hash(t.frontier[level], current));
    }
  }

  /** One level of the frontier after the carry stored the new node at
      level `l`. */
  lemma SlotAfterAppend(p: TreeParams, t: Tree, leaf: Digest, l: nat, k: nat)
    requires Valid(p, t) && |t.leaves| < Pow2(p.depth)
    requires l == FirstEven(|t.leaves|, 0, p.depth)
    requires k <= p.depth && Shr(|t.leaves| + 1, k) % 2 == 1
    ensures t.frontier[l := Node(p, l, Shr(|t.leaves|, l), t.leaves + [leaf])][k]
         == Node(p, k, Shr(|t.leaves| + 1, k) - 1, t.leaves + [leaf])
  {
    var n := |t.leaves|;
    TopIndex(n, p.depth);
    ShrSucc(n, l, k);
    if k > l {
      ShrBounds(n, k);
      NodeOfPrefix(p, k, Shr(n, k) - 1, t.leaves, [leaf]);
    }
  }

  /** Appending keeps the frontier valid. */
  lemma AppendKeepsValid(p: TreeParams, t: Tree, leaf: Digest)
    requires Valid(p, t)
    ensures Valid(p, Append(p, t, leaf).0)
  {
    var n := |t.leaves|;
    if n < Pow2(p.depth) {
      var leaves' := t.leaves + [leaf];
      var l := FirstEven(n, 0, p.depth);
      CarryStores(p, t, leaf, 0, leaf);
      var f' := t.frontier[l := Node(p, l, Shr(n, l), leaves')];
      assert Append(p, t, leaf).0 == Tree(leaves', f');
      forall k | 0 <= k <= p.depth && Shr(n + 1, k) % 2 == 1
        ensures f'[k] == Node(p, k, Shr(n + 1, k) - 1, leaves')
      {
        SlotAfterAppend(p, t, leaf, l, k);
      }
    }
  }

  // ---------------------------------------------------------------------
  // Root.

  /** The walk of the corrected `root`: the node above position n starts as
      the empty leaf; an odd index hashes it under the frontier node, an
      even one beside an empty subtree. */
  function RootWalk(p: TreeParams, t: Tree, level: nat, current: Digest): Digest
    requires |t.frontier| == p.depth + 1 && level <= p.depth
    decreases p.depth - level
  {
    if level == p.depth then current
    else
      var i := Shr(|t.leaves|, level);
      var next := if i % 2 == 1 then p.hash(t.frontier[level], current) else p.hash(current, Empty(p, level));
      RootWalk(p, t, level + 1, next)
  }

  /** `root`: the empty root for no leaves, the top slot once full, else the
      walk up from the first free position. */
  function Root(p: TreeParams, t: Tree): (r: Digest)
    requires |t.frontier| == p.depth + 1
    ensures Valid(p, t) ==> r == PaddedRoot(p, t.leaves)
  {
    var n := |t.leaves|;
    var r := if n == 0 then Empty(p, p.depth)
             else if n == Pow2(p.depth) then t.frontier[p.depth]
             else RootWalk(p, t, 0, Empty(p, 0));
    assert Valid(p, t) ==> r == PaddedRoot(p, t.leaves) by {
      if Valid(p, t) {
        TopIndex(n, p.depth);
        if n == 0 {
          PaddedRootOfNothing(p);
        } else if n < Pow2(p.depth) {
          RootWalkIsNode(p, t, 0, Empty(p, 0));
        }
      }
    }
    r
  }

  /** The walk keeps `current` equal to the reference node above position n. */
  lemma {:induction false} RootWalkIsNode(p: TreeParams, t: Tree, level: nat, current: Digest)
    requires Valid(p, t) && level <= p.depth
    requires current == Node(p, level, Shr(|t.leaves|, level), t.leaves)
    ensures RootWalk(p, t, level, current) == Node(p, p.depth, Shr(|t.leaves|, p.depth), t.leaves)
    decreases p.depth - level
  {
    if level < p.depth {
      var n := |t.leaves|;
      var i := Shr(n, level);
      if i % 2 == 1 {
        assert 2 * (i / 2) + 1 == i;
        RootWalkIsNode(p, t, level + 1, p.hash(t.frontier[level], current));
      } else {
        assert 2 * (i / 2) == i;
        ShrBounds(n, level);
        NodeBeyondLeaves(p, level, i + 1, t.leaves);
        RootWalkIsNode(p, t, level + 1, p.hash(current, Empty(p, level)));
      }
    }
  }

  // ---------------------------------------------------------------------
  // Proofs.

  /** `get_node`: the frontier slot when it holds the asked node, else the
      node computed from the stored leaves. */
  function GetNode(p: TreeParams, t: Tree, level: nat, index: nat): (d: Digest)
    requires |t.frontier| == p.depth + 1 && level <= p.depth
    ensures Valid(p, t) ==> d == Node(p, level, index, t.leaves)
  {
    var i := Shr(|t.leaves|, level);
    if i % 2 == 1 && index == i - 1 then t.frontier[level] else Node(p, level, index, t.leaves)
  }

  /** The path loop of `prove`, comparing the sibling index with the leaf
      count as the source does. */
  function ProvePath(p: TreeParams, t: Tree, level: nat, index: nat): (path: seq<Digest>)
    requires |t.frontier| == p.depth + 1 && level <= p.depth
    ensures |path| == p.depth - level
    decreases p.depth - level
  {
    if level == p.depth then []
    else
      var siblingIndex := Sib(index);
      var sibling := if siblingIndex < |t.leaves| then GetNode(p, t, level, siblingIndex) else Empty(p, level);
      [sibling] + ProvePath(p, t, level + 1, index / 2)
  }

  /** `prove`: `depth` siblings, or `MerkleError` past the last leaf. */
  function Prove(p: TreeParams, t: Tree, position: nat): (r: Result<MerkleProof>)
    requires |t.frontier| == p.depth + 1
    ensures r.Ok? <==> position < |t.leaves|
    ensures r.Ok? ==> r.value.position == position && |r.value.path| == p.depth
    ensures r.Err? ==> r.error == MerkleError("Position out of bounds")
  {
    if position >= |t.leaves| then Err(MerkleError("Position out of bounds"))
    else Ok(MerkleProof(ProvePath(p, t, 0, position), position))
  }

  /** The path `prove` builds is the true authentication path. */
  lemma {:induction false} ProvePathIsAuthPath(p: TreeParams, t: Tree, pos: nat, level: nat)
    requires Valid(p, t) && level <= p.depth
    ensures ProvePath(p, t, level, Shr(pos, level)) == AuthPath(p, pos, level, t.leaves)
    decreases p.depth - level
  {
    if level < p.depth {
      var sib := Sib(Shr(pos, level));
      if sib >= |t.leaves| {
        MulMonotone(1, Pow2(level), sib);
        NodeBeyondLeaves(p, level, sib, t.leaves);
      }
      ProvePathIsAuthPath(p, t, pos, level + 1);
    }
  }

  /** Every appended leaf's proof verifies against the tree's root. */
  lemma ProveVerifies(p: TreeParams, t: Tree, pos: nat)
    requires Valid(p, t) && pos < |t.leaves|
    ensures Prove(p, t, pos).Ok?
    ensures Verify(p, Prove(p, t, pos).value, t.leaves[pos], Root(p, t))
  {
    ProvePathIsAuthPath(p, t, pos, 0);
    AuthPathVerifies(p, pos, t.leaves);
  }

  /** A node hash that determines both children. */
  ghost predicate Injective(h: NodeHash)
  {
    forall a: Digest, b: Digest, c: Digest, d: Digest :: h(a, b) == h(c, d) ==> a == c && b == d
  }

  /** Under such a hash the walk determines its starting node. */
  lemma {:induction false} WalkInjective(p: TreeParams, x: Digest, y: Digest, index: nat, path: seq<Digest>)
    requires Injective(p.hash)
    requires Walk(p, x, index, path) == Walk(p, y, index, path)
    ensures x == y
    decreases |path|
  {
    if |path| > 0 {
      var nx := if index % 2 == 0 then p.hash(x, path[0]) else p.hash(path[0], x);
      var ny := if index % 2 == 0 then p.hash(y, path[0]) else p.hash(path[0], y);
      WalkInjective(p, nx, ny, index / 2, path[1..]);
    }
  }

  /** A proof rejects any other leaf when the hash is injective, and any
      root but the tree's own. */
  lemma ProofRejectsOthers(p: TreeParams, t: Tree, pos: nat, leaf: Digest, root: Digest)
    requires Valid(p, t) && pos < |t.leaves|
    ensures Injective(p.hash) && leaf != t.leaves[pos] ==> !Verify(p, Prove(p, t, pos).value, leaf, Root(p, t))
    ensures root != Root(p, t) ==> !Verify(p, Prove(p, t, pos).value, t.leaves[pos], root)
  {
    ProveVerifies(p, t, pos);
    var proof := Prove(p, t, pos).value;
    if Injective(p.hash) && Verify(p, proof, leaf, Root(p, t)) {
      WalkInjective(p, leaf, t.leaves[pos], pos, proof.path);
    }
  }
}
