/** Definitions shared by both models of the incremental Merkle tree
    (`merkle.rs`): the empty-subtree table, proofs and their verification, and
    the reference padded tree every root is compared against. The node hash
    is a parameter; `Blake3Params` instantiates it with `merkle_hash` at the
    crate's depth of 32. */
module MerkleCommon {
  import opened CryptoTypes
  import opened ByteCodec
  import Hashing
  import opened NatArith

  const TREE_DEPTH: nat := 32

  type NodeHash = (Digest, Digest) -> Digest

  datatype TreeParams = TreeParams(depth: nat, hash: NodeHash)

  /** The crate's tree: depth 32 over `merkle_hash`. */
  function Blake3Params(blake3: Hashing.Blake3Fn): (p: TreeParams)
    ensures p.depth == TREE_DEPTH
    ensures forall l: Digest, r: Digest :: p.hash(l, r) == blake3(l + r)
  {
    forall l: Digest, r: Digest
      ensures Hashing.MerkleHash(blake3, l, r) == blake3(l + r)
    {
      Hashing.MerkleHashPreimage(blake3, l, r);
    }
    TreeParams(TREE_DEPTH, (l: Digest, r: Digest) => Hashing.MerkleHash(blake3, l, r))
  }

  /** Number of leaves a tree of the given depth holds. */
  function Capacity(p: TreeParams): nat
  {
    Pow2(p.depth)
  }

  // ---------------------------------------------------------------------
  // Empty subtrees.

  /** The root of an empty subtree of height `k`: zero bytes at the leaves,
      each level the hash of two copies of the level below. */
  function Empty(p: TreeParams, k: nat): Digest
  {
    if k == 0 then ZeroDigest else p.hash(Empty(p, k - 1), Empty(p, k - 1))
  }

  /** `IncrementalMerkleTree::new`'s table, computed level by level. */
  method EmptyHashes(p: TreeParams) returns (e: seq<Digest>)
    ensures |e| == p.depth + 1
    ensures e[0] == ZeroDigest
    ensures forall k :: 1 <= k <= p.depth ==> e[k] == p.hash(e[k - 1], e[k - 1])
    ensures forall k :: 0 <= k <= p.depth ==> e[k] == Empty(p, k)
  {
    e := [ZeroDigest];
    var level := 1;
    while level <= p.depth
      invariant 1 <= level <= p.depth + 1
      invariant |e| == level
      invariant forall k :: 0 <= k < level ==> e[k] == Empty(p, k)
    {
      var child := e[level - 1];
      e := e + [p.hash(child, child)];
      level := level + 1;
    }
  }

  // ---------------------------------------------------------------------
  // Indices.

  /** `n >> k`. */
  function Shr(n: nat, k: nat): nat
  {
    if k == 0 then n else Shr(n, k - 1) / 2
  }

  /** `i ^ 1`: the index of the other child of the same parent. */
  function Sib(i: nat): nat
  {
    if i % 2 == 0 then i + 1 else i - 1
  }

  lemma MulRegroup(t: nat, q: nat)
    ensures t * (2 * q) == (2 * t) * q
    ensures (t + 1) * (2 * q) == (2 * t + 2) * q
  {
  }

  /** `Shr(n, k)` is the quotient of n by `2^k`, stated without division. */
  lemma {:induction false} ShrBounds(n: nat, k: nat)
    ensures Shr(n, k) * Pow2(k) <= n < (Shr(n, k) + 1) * Pow2(k)
  {
    if k > 0 {
      ShrBounds(n, k - 1);
      var s := Shr(n, k - 1);
      var t := s / 2;
      var q := Pow2(k - 1);
      assert Pow2(k) == 2 * q;
      MulRegroup(t, q);
      MulMonotone(2 * t, s, q);
      MulMonotone(s + 1, 2 * t + 2, q);
    }
  }

  /** The only multiples of `q` at most `q` and above `q - q` are 0 and 1 times it. */
  lemma MultipleBelow(s: nat, q: nat, n: nat)
    requires q >= 1
    requires s * q <= n < (s + 1) * q
    ensures n < q ==> s == 0
    ensures n == q ==> s == 1
  {
    if s >= 1 {
      MulMonotone(1, s, q);
    }
    if s >= 2 {
      MulMonotone(2, s, q);
    }
  }

  /** Below capacity, the index at the top level is 0; at capacity it is 1. */
  lemma TopIndex(n: nat, d: nat)
    requires n <= Pow2(d)
    ensures n < Pow2(d) ==> Shr(n, d) == 0
    ensures n == Pow2(d) ==> Shr(n, d) == 1
  {
    ShrBounds(n, d);
    MultipleBelow(Shr(n, d), Pow2(d), n);
  }

  // ---------------------------------------------------------------------
  // The reference tree.

  /** The node at height `k` and index `i` of the complete tree whose leaves
      are `leaves` followed by zero digests. */
  function Node(p: TreeParams, k: nat, i: nat, leaves: seq<Digest>): Digest
  {
    if k == 0 then (if i < |leaves| then leaves[i] else ZeroDigest)
    else p.hash(Node(p, k - 1, 2 * i, leaves), Node(p, k - 1, 2 * i + 1, leaves))
  }

  /** The root of the complete depth-D tree with unused leaves set to zero. */
  function PaddedRoot(p: TreeParams, leaves: seq<Digest>): Digest
  {
    Node(p, p.depth, 0, leaves)
  }

  /** A subtree lying wholly past the last leaf is the empty subtree. */
  lemma {:induction false} NodeBeyondLeaves(p: TreeParams, k: nat, i: nat, leaves: seq<Digest>)
    requires i * Pow2(k) >= |leaves|
    ensures Node(p, k, i, leaves) == Empty(p, k)
  {
    if k > 0 {
      assert (2 * i) * Pow2(k - 1) == i * Pow2(k);
      assert (2 * i + 1) * Pow2(k - 1) >= (2 * i) * Pow2(k - 1);
      NodeBeyondLeaves(p, k - 1, 2 * i, leaves);
      NodeBeyondLeaves(p, k - 1, 2 * i + 1, leaves);
    }
  }

  /** A subtree lying wholly before position `|leaves|` does not change when
      leaves are appended. */
  lemma {:induction false} NodeOfPrefix(p: TreeParams, k: nat, i: nat, leaves: seq<Digest>, more: seq<Digest>)
    requires (i + 1) * Pow2(k) <= |leaves|
    ensures Node(p, k, i, leaves + more) == Node(p, k, i, leaves)
  {
    if k > 0 {
      assert (2 * i + 2) * Pow2(k - 1) == (i + 1) * Pow2(k);
      assert (2 * i + 1) * Pow2(k - 1) <= (2 * i + 2) * Pow2(k - 1);
      NodeOfPrefix(p, k - 1, 2 * i, leaves, more);
      NodeOfPrefix(p, k - 1, 2 * i + 1, leaves, more);
    }
  }

  /** The tree of no leaves is the empty tree. */
  lemma PaddedRootOfNothing(p: TreeParams)
    ensures PaddedRoot(p, []) == Empty(p, p.depth)
  {
    NodeBeyondLeaves(p, p.depth, 0, []);
  }

  // ---------------------------------------------------------------------
  // Proofs.

  /** A leaf position is below the capacity `2^32`, so the source's `u64`
      never wraps and the model uses `nat`. */
  datatype MerkleProof = MerkleProof(path: seq<Digest>, position: nat)

  /** Hashes `cur` up along `path`, as the left child when the index is even
      and as the right child when it is odd, halving the index each level. */
  function Walk(p: TreeParams, cur: Digest, index: nat, path: seq<Digest>): Digest
    decreases |path|
  {
    if |path| == 0 then cur
    else
      var next := if index % 2 == 0 then p.hash(cur, path[0]) else p.hash(path[0], cur);
      Walk(p, next, index / 2, path[1..])
  }

  /** `MerkleProof::verify`. */
  predicate Verify(p: TreeParams, proof: MerkleProof, leaf: Digest, root: Digest)
  {
    |proof.path| == p.depth && Walk(p, leaf, proof.position, proof.path) == root
  }

  /** A path of the wrong length is rejected, and for a fixed leaf and proof
      at most one root is accepted. */
  lemma VerifyIsFunctional(p: TreeParams, proof: MerkleProof, leaf: Digest, r1: Digest, r2: Digest)
    ensures |proof.path| != p.depth ==> !Verify(p, proof, leaf, r1)
    ensures Verify(p, proof, leaf, r1) && Verify(p, proof, leaf, r2) ==> r1 == r2
  {
  }

  /** The empty subtrees from height `k` to the top: the path of any
      position in an otherwise empty tree. */
  function EmptyPath(p: TreeParams, k: nat): (path: seq<Digest>)
    requires k <= p.depth
    ensures |path| == p.depth - k
    ensures forall j :: 0 <= j < |path| ==> path[j] == Empty(p, k + j)
    decreases p.depth - k
  {
    if k == p.depth then [] else [Empty(p, k)] + EmptyPath(p, k + 1)
  }

  /** The authentication path of position `pos`: the sibling of the node on
      the way up, at every level from `k` to the top. */
  function AuthPath(p: TreeParams, pos: nat, k: nat, leaves: seq<Digest>): (path: seq<Digest>)
    requires k <= p.depth
    ensures |path| == p.depth - k
    decreases p.depth - k
  {
    if k == p.depth then []
    else [Node(p, k, Sib(Shr(pos, k)), leaves)] + AuthPath(p, pos, k + 1, leaves)
  }

  /** Walking from the node above `pos` at height `k` along the true siblings
      arrives at the node above `pos` at the top. */
  lemma {:induction false} WalkAuthPath(p: TreeParams, pos: nat, k: nat, leaves: seq<Digest>)
    requires k <= p.depth
    ensures Walk(p, Node(p, k, Shr(pos, k), leaves), Shr(pos, k), AuthPath(p, pos, k, leaves))
         == Node(p, p.depth, Shr(pos, p.depth), leaves)
    decreases p.depth - k
  {
    if k < p.depth {
      var i := Shr(pos, k);
      var path := AuthPath(p, pos, k, leaves);
      assert path[0] == Node(p, k, Sib(i), leaves);
      assert path[1..] == AuthPath(p, pos, k + 1, leaves);
      assert Shr(pos, k + 1) == i / 2;
      NodeParent(p, k, i, leaves);
      WalkAuthPath(p, pos, k + 1, leaves);
    }
  }

  /** A node hashed with its sibling, in the order its parity gives, is
      their parent. */
  lemma NodeParent(p: TreeParams, k: nat, i: nat, leaves: seq<Digest>)
    ensures (if i % 2 == 0 then p.hash(Node(p, k, i, leaves), Node(p, k, Sib(i), leaves))
             else p.hash(Node(p, k, Sib(i), leaves), Node(p, k, i, leaves)))
         == Node(p, k + 1, i / 2, leaves)
  {
    if i % 2 == 0 {
      assert 2 * (i / 2) == i && Sib(i) == 2 * (i / 2) + 1;
    } else {
      assert 2 * (i / 2) + 1 == i && Sib(i) == 2 * (i / 2);
    }
  }

  /** The true authentication path of any stored leaf verifies against the
      padded root. */
  lemma AuthPathVerifies(p: TreeParams, pos: nat, leaves: seq<Digest>)
    requires pos < |leaves| <= Pow2(p.depth)
    ensures Verify(p, MerkleProof(AuthPath(p, pos, 0, leaves), pos), leaves[pos], PaddedRoot(p, leaves))
  {
    WalkAuthPath(p, pos, 0, leaves);
    TopIndex(pos, p.depth);
  }
}
