/** Notes, their commitments and asset identifiers (`note.rs`). The
    randomness a constructor would sample is an input. */
module Notes {
  import opened CryptoTypes
  import opened Scalars
  import opened Group
  import opened Hashing
  import opened Commitments
  import opened Keys

  datatype Note = Note(
    value: uint64,
    assetId: Digest,
    owner: PublicKey,
    randomness: Scalar,
    memo: Option<Bytes>,
    cachedCommitment: Option<Commitment>)

  /** A commitment together with the asset it is denominated in. */
  datatype NoteCommitment = NoteCommitment(inner: Commitment, assetId: Digest)

  /** The owner every test-only note gets: the decoding of 32 zero bytes. */
  function DummyOwner(): (p: PublicKey)
    ensures p == PublicKey(Identity())
  {
    PublicKeyFromBytes(Zeros(32)).value
  }

  /** `Note::new`: a note carrying a precomputed commitment. */
  function NewWithCommitment(value: uint64, commitment: Commitment, assetId: Digest, sampled: Scalar): (n: Note)
    ensures n.cachedCommitment == Some(commitment) && n.memo == None
    ensures n.value == value && n.assetId == assetId && n.randomness == sampled
  {
    Note(value, assetId, DummyOwner(), sampled, None, Some(commitment))
  }

  /** `Note::new_with_owner`. */
  function NewWithOwner(value: uint64, owner: PublicKey, assetId: Digest, sampled: Scalar): (n: Note)
    ensures n.memo == None && n.cachedCommitment == None
    ensures n.value == value && n.owner == owner && n.assetId == assetId && n.randomness == sampled
  {
    WithRandomness(value, owner, assetId, sampled)
  }

  /** `Note::with_randomness`: no memo and no cached commitment. */
  function WithRandomness(value: uint64, owner: PublicKey, assetId: Digest, randomness: Scalar): (n: Note)
    ensures n.memo == None && n.cachedCommitment == None
    ensures n.value == value && n.owner == owner && n.assetId == assetId && n.randomness == randomness
  {
    Note(value, assetId, owner, randomness, None, None)
  }

  /** Replaces the memo; every other field is kept. */
  function WithMemo(n: Note, memo: Bytes): (m: Note)
    ensures m.memo == Some(memo)
    ensures m.value == n.value && m.assetId == n.assetId && m.owner == n.owner
    ensures m.randomness == n.randomness && m.cachedCommitment == n.cachedCommitment
  {
    n.(memo := Some(memo))
  }

  predicate IsOwnedBy(n: Note, pk: PublicKey)
  {
    n.owner == pk
  }

  /** A note made for a spending key's public key is owned by that key
      alone, a note built around a precomputed commitment belongs to the
      dummy owner, and a memo does not change ownership. */
  lemma Ownership(n: Note, k: SpendingKey, pk: PublicKey, memo: Bytes,
                  value: uint64, assetId: Digest, sampled: Scalar, c: Commitment)
    ensures IsOwnedBy(NewWithOwner(value, PublicKeyOf(k), assetId, sampled), pk) <==> pk.point == k.sk
    ensures IsOwnedBy(NewWithCommitment(value, c, assetId, sampled), pk) <==> pk == PublicKey(Identity())
    ensures IsOwnedBy(WithMemo(n, memo), pk) <==> IsOwnedBy(n, pk)
  {
  }

  /** The cached commitment if there is one, else `value*G + randomness*H`;
      the asset always comes from the note. */
  function NoteCommitmentOf(n: Note): (c: NoteCommitment)
    ensures c.assetId == n.assetId
    ensures n.cachedCommitment.Some? ==> c.inner == n.cachedCommitment.value
    ensures n.cachedCommitment.None? ==> Verify(New(), c.inner, n.value, n.randomness)
  {
    var inner := match n.cachedCommitment
      case Some(cached) => cached
      case None => CommitWithBlinding(New(), n.value, n.randomness);
    NoteCommitment(inner, n.assetId)
  }

  /** Owner and memo never affect the commitment. */
  lemma CommitmentIgnoresOwnerAndMemo(n: Note, owner: PublicKey, memo: Option<Bytes>)
    ensures NoteCommitmentOf(n.(owner := owner, memo := memo)) == NoteCommitmentOf(n)
  {
  }

  /** Two uncached notes that differ only in their randomness have different
      commitments. */
  lemma CommitmentSeparatesRandomness(n: Note, r: Scalar)
    requires n.cachedCommitment.None?
    requires r != n.randomness
    ensures NoteCommitmentOf(n.(randomness := r)) != NoteCommitmentOf(n)
  {
    VerifyRejectsOtherBlinding(n.value, n.randomness, r);
  }

  /** The padding note. */
  function Dummy(): (n: Note)
    ensures n.value == 0 && n.randomness == 0 && n.assetId == Zeros(32)
    ensures n.memo == None && n.cachedCommitment == None
    ensures IsDummy(n)
  {
    Note(0, Zeros(32), DummyOwner(), Scalars.Zero(), None, None)
  }

  /** Only value and randomness are consulted. */
  predicate IsDummy(n: Note)
  {
    n.value == 0 && n.randomness == 0
  }

  /** Asset, owner, memo and cache do not matter to `is_dummy`, and the
      dummy note commits to the identity point. */
  lemma DummyShape(n: Note, asset: Digest, owner: PublicKey, memo: Option<Bytes>, cached: Option<Commitment>)
    ensures IsDummy(n) <==> IsDummy(n.(assetId := asset, owner := owner, memo := memo, cachedCommitment := cached))
    ensures IsZero(NoteCommitmentOf(Dummy()).inner)
  {
    CommitLog(0, 0);
    ModOf(0, 0, 0);
  }

  /** The 64-byte encoding: the commitment's (constant) bytes, then the asset. */
  function NoteCommitmentToBytes(c: NoteCommitment): (b: Bytes)
    ensures |b| == 64
    ensures b[..32] == Commitments.ToBytes(c.inner) && b[32..] == c.assetId
  {
    Commitments.ToBytes(c.inner) + c.assetId
  }

  /** Because the commitment encoding is a placeholder, the bytes of a note
      commitment identify its asset and nothing else. */
  lemma NoteCommitmentBytesOnlyAsset(c: NoteCommitment, d: NoteCommitment)
    ensures NoteCommitmentToBytes(c) == NoteCommitmentToBytes(d) <==> c.assetId == d.assetId
  {
    if NoteCommitmentToBytes(c) == NoteCommitmentToBytes(d) {
      assert NoteCommitmentToBytes(c)[32..] == NoteCommitmentToBytes(d)[32..];
    }
  }

  /** `NoteCommitment::hash`. */
  function NoteCommitmentHash(blake3: Blake3Fn, c: NoteCommitment): (h: Digest)
    ensures h == blake3(NoteCommitmentToBytes(c))
  {
    HashOnceIsBlake3(blake3, NoteCommitmentToBytes(c));
    HashOnce(blake3, NoteCommitmentToBytes(c))
  }

  // ---------------------------------------------------------------------
  // Asset identifiers.

  /** The native token: 32 zero bytes. */
  const NATIVE_ASSET: Digest := Zeros(32)

  function CustomAsset(id: Digest): Digest
  {
    id
  }

  /** A 20-byte contract address, zero-padded to 32 bytes. */
  function AssetFromContract(address: Bytes): (id: Digest)
    requires |address| == 20
    ensures id[..20] == address
    ensures forall i :: 20 <= i < 32 ==> id[i] == 0
  {
    address + Zeros(12)
  }

  /** Contract assets are distinct for distinct addresses, and only the zero
      address maps to the native asset; a custom id is the id itself. */
  lemma AssetIds(a: Bytes, b: Bytes, id: Digest)
    requires |a| == 20 && |b| == 20
    ensures AssetFromContract(a) == AssetFromContract(b) <==> a == b
    ensures AssetFromContract(a) == NATIVE_ASSET <==> a == Zeros(20)
    ensures CustomAsset(id) == id
  {
    if AssetFromContract(a) == AssetFromContract(b) {
      assert AssetFromContract(a)[..20] == AssetFromContract(b)[..20];
    }
    if a == Zeros(20) {
      assert AssetFromContract(a) == NATIVE_ASSET;
    }
    if AssetFromContract(a) == NATIVE_ASSET {
      assert AssetFromContract(a)[..20] == NATIVE_ASSET[..20];
    }
  }
}
