# Privacy ledger core and constant-product AMM, in Dafny

This project models two cores of a privacy-preserving ledger.

The first is the `crypto` crate:
- scalars of the Pallas scalar field;
- Pedersen value commitments;
- the Blake3 and domain-separated hashers;
- key derivation from a seed;
- notes and their commitments;
- nullifier derivation and the spent-nullifier set;
- the incremental and batched Merkle trees of note commitments;
- the proof verifier's dispatch;
- the byte-level primitives.

The second is the `simple-amm` pallet: pool creation, `add_liquidity`, `remove_liquidity` and `swap` on a constant-product pool with a 0.25% fee.

Points of the Pallas curve are modelled by their discrete logarithm to the generator, an integer below the group order `Q`. So `x·G + y·H` is `x + y·log(H) mod Q`, and the Pedersen binding argument becomes arithmetic on logs. Blake3 and the other hash functions are uninterpreted function parameters (`Blake3Fn`, `TreeParams.hash`, `HashTwoFn`). Each property that needs more of a hash than being a function states the extra assumption as a `requires`, for example an injective node hash. Random sampling (blinding factors, note randomness) becomes an explicit `sampled` parameter. The pallet's `Balance` type is unbounded `nat`, and its largest value is a parameter `max >= u32::MAX`. Every checked operation fails above `max`, as the source's `checked_*` do.

Modules:
- `CryptoTypes`, `ByteCodec`, `NatArith`: shared types, little-endian codecs and nonlinear arithmetic facts.
- `Scalars`, `Group`, `Commitments`, `Hashing`, `NullifierKeys`, `Keys`, `Notes`, `Nullifiers`, `Proofs`, `Primitives`: one per source file.
- `MerkleCommon`: the padded tree every root and proof is measured against.
- `MerkleWritten`: the incremental tree exactly as written.
- `MerkleFrontier`: the incremental tree with the frontier kept as intended (see Findings).
- `MerkleBatch`: the staging tree built on top of `MerkleFrontier`.
- `MerkleBatchWritten`: the same staging tree over the tree as written, which is what the source wraps.
- `AmmMath`: `quote`, `get_amount_out`, `verify_invariant` and the checked arithmetic.
- `Amm`: the pallet's storage and its four calls.
- `AmmLedger`: conservation of LP tokens across the calls.

Where the source's own tests and doc comments disagree with its code, the model follows the code:
- **Merkle proofs.** The test `test_multiple_leaves` (crates/crypto/src/merkle.rs:327-342) expects every leaf's proof to verify against the root. The frontier truncation in `update_frontier` (merkle.rs:146-150) and the empty node cache of `get_node` (merkle.rs:229-231) break this from the second leaf on (see Findings). With the frontier kept as intended, a proof verifies against the root current when it is made (`MerkleFrontier.ProveVerifies`).
- **Codecs.** Point and commitment byte codecs are placeholders that write 32 zero bytes and read back the identity. The model keeps this and proves the consequence (`Commitments.CodecRoundTripOnlyZero`, `Keys.PublicKeyCodecCollapses`).
- **Transaction verification.** `verify_transaction` never reads the binding signature (`Proofs.BindingSignatureUnread`).
- **`create_pool`.** It never raises `PoolAlreadyExists`.
- **`add_liquidity`.** It checks only the quoted side against its minimum.

## Model

| member | source | states |
|---|---|---|
| Scalars.FromBytes | crates/crypto/src/scalar.rs:39-44 | decoding 32 bytes succeeds exactly when their little-endian value is below the field order, fails with InvalidKey otherwise, and a decoded scalar re-encodes to the same bytes |
| Scalars.ToBytes | crates/crypto/src/scalar.rs:47-50 | the encoding is 32 bytes whose little-endian value is the scalar |
| Scalars.FromToBytes | crates/crypto/src/scalar.rs:114-122 | decoding an encoded scalar gives it back |
| Scalars.ToBytesInjective | crates/crypto/src/scalar.rs:47-50 | distinct scalars have distinct encodings |
| Scalars.AddIsModular | crates/crypto/src/scalar.rs:84-90 | field addition is the integer sum reduced once by the order, commutative, with zero as unit |
| Scalars.AddAssoc | crates/crypto/src/scalar.rs:84-90 | field addition is associative |
| Scalars.SubAddCancel | crates/crypto/src/scalar.rs:84-98 | subtraction undoes addition in both orders |
| Scalars.Add | crates/crypto/src/scalar.rs:84-90 | the field sum is the integer sum, less the order once it reaches the order |
| Scalars.Sub | crates/crypto/src/scalar.rs:92-98 | the field difference is the integer difference, plus the order when that is negative |
| Scalars.Mul | crates/crypto/src/scalar.rs:100-106 | one is the multiplicative unit and zero annihilates |
| Scalars.MulDistributes | crates/crypto/src/scalar.rs:84-106 | field multiplication distributes over field addition |
| Scalars.SubIsAddNeg | crates/crypto/src/scalar.rs:84-98 | subtraction is addition of the additive inverse |
| Group.DoubleNIsPow2 | crates/crypto/src/commitment.rs:60-66 | doubling a point n times multiplies its log by 2^n modulo the order |
| Group.ToBytes | crates/crypto/src/point.rs:32-36 | the placeholder encoding writes 32 zero bytes for every point |
| Group.FromBytes | crates/crypto/src/point.rs:26-29 | the placeholder decoding returns the identity for every input |
| Group.GroupLaws | crates/crypto/src/point.rs:100-120 | identity is neutral, p - p is the identity, the generator and its double are not |
| Commitments.New | crates/crypto/src/commitment.rs:53-69 | the generators are G and H = 2^128 G |
| Commitments.HIsDoubledG | crates/crypto/src/commitment.rs:60-66 | the 128-step doubling loop yields the fixed log of H |
| Commitments.Commit | crates/crypto/src/commitment.rs:72-76 | commit returns the sampled blinding and a commitment that opens to the value under it |
| Commitments.CommitWithBlinding | crates/crypto/src/commitment.rs:79-84 | the commitment's log is value times log G plus blinding times log H, reduced modulo the order |
| Commitments.CommitLog | crates/crypto/src/commitment.rs:79-84 | under the default generators a commitment to v with blinding r is v + 2^128 r modulo the order |
| Commitments.Verify | crates/crypto/src/commitment.rs:87-90 | verify holds exactly when the commitment's log is that of value·G + blinding·H |
| Commitments.VerifyAcceptsOpening | crates/crypto/src/commitment.rs:87-90 | verify accepts the value and blinding a commitment was made with |
| Commitments.VerifyRejectsOtherValue | crates/crypto/src/commitment.rs:87-90 | verify rejects any other 64-bit value with the same blinding (binding) |
| Commitments.VerifyRejectsOtherBlinding | crates/crypto/src/commitment.rs:87-90 | verify rejects any other blinding with the same value |
| Commitments.Zero | crates/crypto/src/commitment.rs:93-97 | the zero commitment is the identity |
| Commitments.IsZero | crates/crypto/src/commitment.rs:126-128 | a commitment is zero exactly when adding it to itself leaves it unchanged |
| Commitments.CAdd | crates/crypto/src/commitment.rs:132-140 | subtracting the second summand from the sum gives the first back |
| Commitments.CSub | crates/crypto/src/commitment.rs:143-151 | adding the subtrahend back to the difference gives the minuend |
| Commitments.Homomorphic | crates/crypto/src/commitment.rs:132-140 | the sum of two commitments commits to the summed values under the summed blindings |
| Commitments.ZeroAndSub | crates/crypto/src/commitment.rs:143-151 | zero is neutral, subtraction undoes addition and c - c is zero |
| Commitments.ToBytes | crates/crypto/src/commitment.rs:108-114 | the placeholder encoding is 32 zero bytes |
| Commitments.FromBytes | crates/crypto/src/commitment.rs:117-123 | the placeholder decoding always yields the zero commitment |
| Commitments.CodecRoundTripOnlyZero | crates/crypto/src/commitment.rs:108-128 | a commitment survives encode then decode exactly when it is zero |
| Commitments.NewValueCommitment | crates/crypto/src/commitment.rs:164-179 | a value commitment records the asset id and opens to the value under the sampled blinding |
| Commitments.ValueCommitmentOpening | crates/crypto/src/commitment.rs:182-185 | a value commitment verifies for its value and for no other |
| Hashing.NewHasher | crates/crypto/src/hash.rs:89-93 | a fresh Blake3 hasher has absorbed nothing |
| Hashing.Update | crates/crypto/src/hash.rs:95-97 | update appends its data to what was absorbed |
| Hashing.UpdatesConcatenate | crates/crypto/src/hash.rs:95-97 | two updates equal one update with the concatenation |
| Hashing.HashOnceIsBlake3 | crates/crypto/src/hash.rs:28-32 | the one-shot hash is Blake3 of its input |
| Hashing.NewDomainHasher | crates/crypto/src/hash.rs:226-232 | a domain hasher starts by absorbing the domain then a zero separator |
| Hashing.DomainUpdate | crates/crypto/src/hash.rs:235-237 | an update keeps the domain and appends its data |
| Hashing.FeedAllAbsorbs | crates/crypto/src/hash.rs:235-237 | a run of updates absorbs the concatenation of its parts |
| Hashing.DomainHashPreimage | crates/crypto/src/hash.rs:226-242 | the domain hash is Blake3 of domain, zero byte and the concatenated parts |
| Hashing.DomainSeparation | crates/crypto/src/hash.rs:226-232 | two distinct NUL-free domains never give the same preimage, whatever follows |
| Hashing.TagsSeparate | crates/crypto/src/hash.rs:294-307 | distinct printable ASCII tags give distinct preimages |
| Hashing.MerkleHashPreimage | crates/crypto/src/hash.rs:246-254 | the node hash is Blake3 of the 64-byte left-then-right concatenation, which is order-sensitive |
| Hashing.HashBlake3 | crates/crypto/src/hash.rs:188-190 | Hash::blake3 wraps the Blake3 digest of the data |
| Hashing.HashToBytes | crates/crypto/src/hash.rs:198-206 | a Blake3 hash serialises to its digest; a Poseidon hash to nothing |
| Hashing.HashToBytesDistinguishes | crates/crypto/src/hash.rs:198-206 | serialisation is injective on Blake3 hashes and collapses all Poseidon hashes |
| Hashing.HashFieldsFold | crates/crypto/src/hash.rs:135-146 | hash_fields is zero on no input, the element on one, and folds hash_two left to right |
| NullifierKeys.ScalarOrZero | crates/crypto/src/nullifier.rs:83-93 | a digest is read as a scalar when canonical and as zero otherwise |
| NullifierKeys.NkFromSeed | crates/crypto/src/nullifier.rs:83-93 | the nullifier key is the tagged Blake3 digest of the seed read as a scalar |
| Keys.SpendingKeyFromSeed | crates/crypto/src/keys.rs:31-40 | the spending key is the tagged Blake3 digest of the seed read as a scalar |
| Keys.SeedsMayCollapse | crates/crypto/src/keys.rs:31-40 | two seeds whose digests are non-canonical both give the zero spending key |
| Keys.NullifierKey | crates/crypto/src/keys.rs:43-50 | the nullifier key is derived from the tagged digest of the spending key's bytes |
| Keys.PublicKeyOf | crates/crypto/src/keys.rs:87-90 | the public key is sk·G |
| Keys.PublicKeyToBytes | crates/crypto/src/keys.rs:100-102 | a public key encodes to 32 bytes |
| Keys.PublicKeyFromBytes | crates/crypto/src/keys.rs:105-109 | decoding a public key always yields the identity |
| Keys.PublicKeyCodecCollapses | crates/crypto/src/keys.rs:100-109 | all public keys share one encoding and only the identity round-trips |
| Keys.ViewingKeyOf | crates/crypto/src/keys.rs:134-151 | the incoming and outgoing viewing keys are tagged digests of the spending key |
| Keys.FullKeysFromSpendingKey | crates/crypto/src/keys.rs:254-265 | the full key set bundles the spending key and the public, viewing and nullifier keys derived from it |
| Keys.FullKeysFromSeed | crates/crypto/src/keys.rs:268-271 | the full key set from a seed starts from the seed's spending key |
| Keys.DerivationsSeparated | crates/crypto/src/keys.rs:31-151 | the derivation tags are pairwise distinct, so no two derivations share a preimage |
| Keys.SignatureToBytes | crates/crypto/src/keys.rs:208-213 | a signature encodes to 64 bytes: the placeholder point then the scalar |
| Keys.SignatureFromBytes | crates/crypto/src/keys.rs:216-230 | decoding succeeds exactly on 64 bytes with a canonical scalar half |
| Keys.SignatureRoundTrip | crates/crypto/src/keys.rs:208-230 | a signature round-trips except that its point becomes the identity |
| Notes.DummyOwner | crates/crypto/src/note.rs:35-50 | a note built without an owner gets the identity as owner |
| Notes.NewWithCommitment | crates/crypto/src/note.rs:35-50 | new keeps its value, asset and sampled randomness and caches the commitment |
| Notes.NewWithOwner | crates/crypto/src/note.rs:53-65 | new_with_owner keeps all its fields and caches nothing |
| Notes.WithRandomness | crates/crypto/src/note.rs:68-82 | with_randomness uses the given randomness |
| Notes.WithMemo | crates/crypto/src/note.rs:85-88 | with_memo sets the memo and changes nothing else |
| Notes.Ownership | crates/crypto/src/note.rs:154-156 | a note made for a spending key's public key is owned by exactly that key, a note from `new` by the identity owner alone, and a memo keeps ownership |
| Notes.NoteCommitmentOf | crates/crypto/src/note.rs:111-127 | the note commitment uses the cached commitment when present, otherwise a Pedersen commitment opening to the value under the randomness, and records the asset |
| Notes.CommitmentIgnoresOwnerAndMemo | crates/crypto/src/note.rs:111-127 | owner and memo do not affect the commitment |
| Notes.CommitmentSeparatesRandomness | crates/crypto/src/note.rs:312-326 | changing the randomness changes the commitment |
| Notes.Dummy | crates/crypto/src/note.rs:159-168 | the dummy note has value zero, randomness zero and the native asset, and is a dummy |
| Notes.DummyShape | crates/crypto/src/note.rs:171-173 | being a dummy depends only on value and randomness; the dummy commits to zero |
| Notes.NoteCommitmentToBytes | crates/crypto/src/note.rs:203-208 | the encoding is 64 bytes: the commitment's then the asset id |
| Notes.NoteCommitmentBytesOnlyAsset | crates/crypto/src/note.rs:203-208 | two note commitments encode alike exactly when their assets agree |
| Notes.NoteCommitmentHash | crates/crypto/src/note.rs:211-213 | the commitment's hash is Blake3 of its encoding |
| Notes.AssetFromContract | crates/crypto/src/note.rs:271-276 | a contract asset is the 20-byte address followed by zeros |
| Notes.AssetIds | crates/crypto/src/note.rs:263-280 | contract assets are injective in the address, equal the native asset only for the zero address, and custom ids are taken as given |
| Nullifiers.DeriveNullifier | crates/crypto/src/nullifier.rs:96-112 | the nullifier is Blake3 of tag, key, note commitment encoding and position |
| Nullifiers.PositionsSeparate | crates/crypto/src/nullifier.rs:96-112 | the preimage has fixed length and differs for different positions |
| Nullifiers.NullifierIgnoresValueAndRandomness | crates/crypto/src/nullifier.rs:96-112 | because the commitment encoding is a placeholder, notes with the same asset share a nullifier at a position |
| Nullifiers.EmptySet | crates/crypto/src/nullifier.rs:129-133 | a new set is empty |
| Nullifiers.Spend | crates/crypto/src/nullifier.rs:141-147 | spending fails with the double-spend error exactly when already spent, leaving the set, and otherwise adds the nullifier |
| Nullifiers.SpendGrowsByOne | crates/crypto/src/nullifier.rs:292-309 | a fresh spend grows the set by one and a second spend of it fails |
| Nullifiers.Len | crates/crypto/src/nullifier.rs:170-177 | the count is zero exactly for the empty set, and one more than the count without any one member |
| Nullifiers.Hex | crates/crypto/src/nullifier.rs:30-32 | the hex form has two characters per byte |
| Nullifiers.FirstSpent | crates/crypto/src/nullifier.rs:152-159 | the batch check stops at the first already-spent entry |
| Nullifiers.SpendBatch | crates/crypto/src/nullifier.rs:150-167 | the loop computes the all-or-nothing batch spend |
| Nullifiers.BatchAtomic | crates/crypto/src/nullifier.rs:150-159 | a batch fails exactly when some entry is already spent, and then leaves the set unchanged |
| Nullifiers.BatchUnion | crates/crypto/src/nullifier.rs:161-166 | a successful batch adds exactly its entries |
| Nullifiers.BatchAcceptsDuplicates | crates/crypto/src/nullifier.rs:152-166 | a batch repeating a fresh nullifier succeeds although two single spends would not |
| Nullifiers.AllNullifiers | crates/crypto/src/nullifier.rs:186-188 | the listing has each spent nullifier exactly once |
| Nullifiers.Restore | crates/crypto/src/nullifier.rs:191-193 | restore adds the listed nullifiers |
| Nullifiers.RestoreRoundTrip | crates/crypto/src/nullifier.rs:340-363 | restoring a listing into an empty set rebuilds the set |
| Nullifiers.PersistentSpend | crates/crypto/src/nullifier.rs:221-229 | the persistent set spends like the in-memory one and keeps its path |
| Nullifiers.PersistentSpendBatch | crates/crypto/src/nullifier.rs:232-236 | the persistent batch spends like the in-memory one |
| Nullifiers.SortLex | crates/crypto/src/nullifier.rs:251-253 | sorting yields a strictly increasing list of the same nullifiers |
| Nullifiers.SortedListingUnique | crates/crypto/src/nullifier.rs:246-260 | two strictly sorted listings of one set are equal |
| Nullifiers.RootHash | crates/crypto/src/nullifier.rs:246-260 | the root is the tagged Blake3 of the sorted concatenation |
| Nullifiers.RootHashDependsOnMembership | crates/crypto/src/nullifier.rs:246-260 | the root depends only on which nullifiers are spent, not on insertion order |
| MerkleCommon.Blake3Params | crates/crypto/src/hash.rs:246-254 | the production tree has depth 32 and hashes nodes with Blake3 of left then right |
| MerkleCommon.EmptyHashes | crates/crypto/src/merkle.rs:84-93 | the table starts at the zero digest and each level hashes the previous with itself |
| MerkleCommon.PaddedRootOfNothing | crates/crypto/src/merkle.rs:155-157 | the empty tree's root is the top empty hash |
| MerkleCommon.VerifyIsFunctional | crates/crypto/src/merkle.rs:45-65 | a proof of the wrong length never verifies and a proof verifies against at most one root |
| MerkleCommon.AuthPathVerifies | crates/crypto/src/merkle.rs:45-65 | the sibling path of a leaf in the padded tree verifies against the padded root |
| MerkleWritten.NewW | crates/crypto/src/merkle.rs:83-101 | the tree as written starts empty |
| MerkleWritten.Truncate | crates/crypto/src/merkle.rs:146-150 | truncation keeps a prefix of at most the given length |
| MerkleWritten.AppendW | crates/crypto/src/merkle.rs:104-116 | append as written returns the old leaf count, fails with "Tree is full" at capacity and changes nothing then |
| MerkleWritten.RootW | crates/crypto/src/merkle.rs:154-187 | the root of a non-empty tree as written walks its one kept frontier node up against empty siblings |
| MerkleWritten.GetNodeW | crates/crypto/src/merkle.rs:218-232 | get_node as written returns the empty hash above the kept frontier |
| MerkleWritten.ProveW | crates/crypto/src/merkle.rs:190-215 | prove succeeds exactly for positions below the leaf count and returns a full-depth path |
| MerkleWritten.SingleLeafProofVerifies | crates/crypto/src/merkle.rs:312-324 | with one leaf, its proof verifies against the root |
| MerkleWritten.TwoLeafShape | crates/crypto/src/merkle.rs:119-151 | after two appends the written frontier keeps only the hash of the pair |
| MerkleWritten.TwoLeafProofFails | crates/crypto/src/merkle.rs:229-231 | with two leaves, the proof of the first does not verify against the root |
| MerkleWritten.KeepLeftIsCancellative | crates/crypto/src/merkle.rs:229-231 | the hash assumption of TwoLeafProofFails can be met |
| MerkleFrontier.New | crates/crypto/src/merkle.rs:83-101 | a new tree is empty and satisfies the frontier invariant |
| MerkleFrontier.Append | crates/crypto/src/merkle.rs:104-116 | append returns the old leaf count and adds the leaf, or fails with "Tree is full" at capacity and changes nothing |
| MerkleFrontier.CarryStores | crates/crypto/src/merkle.rs:119-151 | the carry loop stores the completed subtree root at the first free level |
| MerkleFrontier.AppendKeepsValid | crates/crypto/src/merkle.rs:119-151 | append keeps every frontier slot equal to the root of the last completed subtree at its level |
| MerkleFrontier.Root | crates/crypto/src/merkle.rs:154-187 | the root computed from a valid frontier equals the padded tree's root over all leaves |
| MerkleFrontier.GetNode | crates/crypto/src/merkle.rs:218-232 | get_node returns the padded tree's node |
| MerkleFrontier.Prove | crates/crypto/src/merkle.rs:190-215 | prove succeeds exactly below the leaf count and returns a full-depth path |
| MerkleFrontier.ProvePathIsAuthPath | crates/crypto/src/merkle.rs:195-212 | the proof path is the padded tree's sibling path |
| MerkleFrontier.ProveVerifies | crates/crypto/src/merkle.rs:336-342 | every leaf's proof verifies against the current root |
| MerkleFrontier.ProofRejectsOthers | crates/crypto/src/merkle.rs:382-405 | with an injective node hash a proof rejects any other leaf, and it rejects any other root |
| MerkleBatch.NewBatch | crates/crypto/src/merkle.rs:259-264 | a batch tree starts with an empty tree and nothing staged |
| MerkleBatch.Stage | crates/crypto/src/merkle.rs:267-269 | staging queues a leaf and leaves the tree alone |
| MerkleBatch.CommitLoop | crates/crypto/src/merkle.rs:272-280 | committing appends in order, returns consecutive positions, and on overflow keeps the leaves appended before the failure |
| MerkleBatch.Commit | crates/crypto/src/merkle.rs:272-280 | commit always empties the staging area, even when it fails |
| MerkleBatch.BatchRoot | crates/crypto/src/merkle.rs:283-294 | the preview root is the root the tree has after committing |
| MerkleBatch.CommitLoopKeepsValid | crates/crypto/src/merkle.rs:272-280 | committing keeps the frontier invariant |
| MerkleBatch.BatchRootIsPaddedRoot | crates/crypto/src/merkle.rs:283-294 | the batch root is the padded root over committed and staged leaves |
| MerkleBatchWritten.NewBatchW | crates/crypto/src/merkle.rs:259-264 | a batch tree starts with an empty written tree and nothing staged |
| MerkleBatchWritten.StageW | crates/crypto/src/merkle.rs:267-269 | staging queues a leaf and leaves the tree alone |
| MerkleBatchWritten.CommitLoopW | crates/crypto/src/merkle.rs:272-280 | over the tree as written, committing appends in order, returns consecutive positions, fails with "Tree is full" once full, counts exactly the leaves that fit and keeps the one-node frontier shape |
| MerkleBatchWritten.CommitW | crates/crypto/src/merkle.rs:272-280 | commit always empties the staging area, even when it fails |
| MerkleBatchWritten.AppendAllWIsCommitLoop | crates/crypto/src/merkle.rs:287-292 | appending every staged leaf while ignoring errors ends in the tree commit stops in |
| MerkleBatchWritten.BatchRootW | crates/crypto/src/merkle.rs:283-294 | the preview root over the tree as written is the root after committing |
| MerkleBatchWritten.PreviewOfTwo | crates/crypto/src/merkle.rs:283-294 | staging two leaves previews the root of appending them one by one to the tree as written |
| Proofs.Size | crates/crypto/src/proof.rs:44-46 | the size is zero exactly for an empty proof |
| Proofs.SizeCountsProofBytes | crates/crypto/src/proof.rs:269-275 | only the proof bytes count, not public inputs or key id: the test's three-byte proof has size 3 |
| Proofs.NewVerificationKey | crates/crypto/src/proof.rs:109-119 | a key's id is Blake3 of its data |
| Proofs.NewAggregatedProof | crates/crypto/src/proof.rs:188-199 | the aggregation root is Blake3 of the proof bytes |
| Proofs.NewVerifier | crates/crypto/src/proof.rs:215-219 | a new verifier has no keys |
| Proofs.RegisterVk | crates/crypto/src/proof.rs:222-224 | registering adds or replaces the key under its id and keeps the others |
| Proofs.VerifyHalo2 | crates/crypto/src/proof.rs:227-234 | an unknown key id is InvalidProof; otherwise the proof is checked against the registered key |
| Proofs.RegisteredKeyIsUsed | crates/crypto/src/proof.rs:222-234 | after registering, a proof naming the key is checked against it; a new verifier rejects everything |
| Proofs.AllPassIffTrue | crates/crypto/src/proof.rs:237-256 | a transaction verifies exactly when every spend and output proof verifies |
| Proofs.FirstFailureDecides | crates/crypto/src/proof.rs:239-250 | the first proof that does not pass decides the outcome |
| Proofs.VerifyTransaction | crates/crypto/src/proof.rs:237-256 | the loop returns the outcome of the first failing proof, or true |
| Proofs.BindingSignatureUnread | crates/crypto/src/proof.rs:252-255 | the outcome does not depend on the binding signature |
| Primitives.CtEq | crates/crypto/src/primitives.rs:36-44 | the constant-time comparison is true exactly when the byte strings are equal |
| Primitives.XorBytes | crates/crypto/src/primitives.rs:47-54 | xor combines equal-length strings bytewise |
| Primitives.XorInvolution | crates/crypto/src/primitives.rs:127-133 | xoring twice with a pad restores the input; self-xor is zero |
| Primitives.FieldToBytes | crates/crypto/src/primitives.rs:31-33 | a field element encodes to 32 bytes of its value |
| Primitives.FieldInput | crates/crypto/src/primitives.rs:21-28 | the decoded buffer is a zero byte, up to 31 input bytes, then zeros |
| Primitives.BytesToField | crates/crypto/src/primitives.rs:21-28 | the result is the little-endian value of that buffer when it is below the order, and zero otherwise |
| Primitives.BytesToFieldRoundTrip | crates/crypto/src/primitives.rs:107-114 | when the buffer is canonical, the input comes back at offsets 1 to 31 |
| Primitives.BytesToFieldMayOverflow | crates/crypto/src/primitives.rs:21-28 | thirty zeros then 0xff decode to zero and do not round-trip |
| Primitives.BytesToFieldLow | crates/crypto/src/primitives.rs:21-28 | with the input in the low bytes, every input of up to 31 bytes decodes to its value |
| Primitives.BytesToFieldLowRoundTrip | crates/crypto/src/primitives.rs:21-28 | with that layout every 31-byte input round-trips |
| Primitives.SecureErase | crates/crypto/src/primitives.rs:86-89 | erasure zeroes every byte and keeps the length |
| AmmMath.Quote | crates/pallets/simple-amm/src/lib.rs:440-455 | quote is the floor of amount·reserveB/reserveA, with ZeroAmount, InsufficientLiquidity and Overflow exactly when the source raises them |
| AmmMath.QuoteBackNeverGains | crates/pallets/simple-amm/src/lib.rs:440-455 | quoting across and back never returns more than the start |
| AmmMath.GetAmountOut | crates/pallets/simple-amm/src/lib.rs:463-491 | the output is the floor of the fee-adjusted constant-product price, with each error exactly when raised |
| AmmMath.AmountOutBelowReserve | crates/pallets/simple-amm/src/lib.rs:463-491 | a swap's output is strictly below the out-reserve |
| AmmMath.AmountOutBelowFeeFree | crates/pallets/simple-amm/src/lib.rs:463-491 | the fee only lowers the output relative to the fee-free price |
| AmmMath.SwapKeepsProduct | crates/pallets/simple-amm/src/lib.rs:463-491 | the reserves after a swap have at least the old product |
| AmmMath.VerifyInvariant | crates/pallets/simple-amm/src/lib.rs:498-510 | the check passes exactly when both products fit and the new one is at least the old; the error distinguishes overflow |
| Amm.Genesis | crates/pallets/simple-amm/src/lib.rs:62-88 | storage starts with no pools and the id counter at zero |
| Amm.SetLpBalance | crates/pallets/simple-amm/src/lib.rs:73-83 | writing one LP balance changes that entry only |
| Amm.CreatePool | crates/pallets/simple-amm/src/lib.rs:157-193 | the new empty pool is stored under the counter, which then saturates at u32::MAX |
| Amm.CreatePoolOverwritesAtSaturation | crates/pallets/simple-amm/src/lib.rs:165-183 | at the saturated counter, create_pool replaces the existing pool and leaves its LP balances |
| Amm.CreatePoolFresh | crates/pallets/simple-amm/src/lib.rs:165-183 | the corrected create_pool fails with PoolAlreadyExists exactly when the id is taken |
| Amm.Direction | crates/pallets/simple-amm/src/lib.rs:390-396 | the input token picks the reserve order; a token of neither side is PoolNotFound |
| Amm.SwapPool | crates/pallets/simple-amm/src/lib.rs:388-418 | on a loaded pool: an unknown token is PoolNotFound, then get_amount_out's error, then SlippageExceeded below the minimum, then Overflow on the input reserve, or Overflow when the old or new reserve product exceeds the balance range; past the slippage check it succeeds exactly when the input reserve and both products fit; on success the reserves move by the input and the priced output and the product does not shrink |
| Amm.Swap | crates/pallets/simple-amm/src/lib.rs:374-434 | swap pays get_amount_out and moves the reserves accordingly; it fails with ZeroAmount, PoolNotFound, get_amount_out's own error, SlippageExceeded below the minimum, Overflow when the input reserve would exceed the balance range, or Overflow when the old or new reserve product exceeds the balance range; past the slippage check it succeeds exactly when the input reserve and both products fit; it changes nothing on failure |
| Amm.Settle | crates/pallets/simple-amm/src/lib.rs:406-418 | the reserve update and invariant check of a priced swap: Overflow when the input reserve leaves the balance range; otherwise success exactly when the old and the new product fit, else Overflow; on success the input side grows by the input, the output side shrinks by the output, and the product does not shrink |
| Amm.PricedRebalance | crates/pallets/simple-amm/src/lib.rs:406-414 | a priced swap whose input reserve fits always rebalances, the output staying below its reserve, to reserves whose product is that of the moved reserves and at least the old one |
| Amm.SwapNeverViolatesInvariant | crates/pallets/simple-amm/src/lib.rs:416-418 | the invariant check after a swap never raises InvariantViolated |
| Amm.RebalanceKeepsProduct | crates/pallets/simple-amm/src/lib.rs:408-418 | the rebalanced reserves keep at least the old product in either direction |
| Amm.SwapOutputSubtractionNeverFails | crates/pallets/simple-amm/src/lib.rs:408-414 | with the output below the out-reserve, only the input-side addition can overflow |
| Amm.ChooseAmounts | crates/pallets/simple-amm/src/lib.rs:223-240 | an empty pool takes the desired amounts; otherwise the quoted side meets its minimum and neither exceeds the desired; an Overflow means a quote product exceeds the balance range |
| Amm.ChooseAmountsAtRatio | crates/pallets/simple-amm/src/lib.rs:226-240 | the chosen amounts are at the pool's ratio up to rounding |
| Amm.QuoteToken0 | crates/pallets/simple-amm/src/lib.rs:234-239 | when token1's desired amount is worth less than token0's, token0's quote is strictly below its desired amount, meets its minimum, and fails with Overflow only when the quote's product exceeds the balance range |
| Amm.MintAmount | crates/pallets/simple-amm/src/lib.rs:243-263 | the first deposit mints the floor of (amount0 + amount1) / 2; later ones the smaller pro-rata share; Overflow when a sum or product does not fit or a reserve is zero |
| Amm.AddLiquidity | crates/pallets/simple-amm/src/lib.rs:205-290 | add_liquidity raises the reserves, the supply and the caller's LP balance by the minted amount, touches nothing else, and changes nothing on failure |
| Amm.RemoveLiquidity | crates/pallets/simple-amm/src/lib.rs:301-361 | remove_liquidity pays the pro-rata amounts, burns the LP tokens from supply and caller, and changes nothing on failure |
| Amm.WithdrawalWithinReserves | crates/pallets/simple-amm/src/lib.rs:336-339 | the pro-rata withdrawal never underflows the reserves or supply |
| AmmLedger.SumUpdate | crates/pallets/simple-amm/src/lib.rs:73-83 | overwriting one balance changes the ledger's total by the difference |
| AmmLedger.GenesisConserved | crates/pallets/simple-amm/src/lib.rs:62-88 | at genesis LP balances sum to each pool's supply |
| AmmLedger.ConservedBalanceBelowSupply | crates/pallets/simple-amm/src/lib.rs:316-318 | under conservation no balance exceeds its pool's supply |
| AmmLedger.SwapConserves | crates/pallets/simple-amm/src/lib.rs:374-434 | swap keeps LP balances summing to each pool's supply |
| AmmLedger.AddLiquidityConserves | crates/pallets/simple-amm/src/lib.rs:266-278 | add_liquidity keeps conservation and always credits the minted tokens |
| AmmLedger.RemoveLiquidityConserves | crates/pallets/simple-amm/src/lib.rs:337-349 | remove_liquidity keeps conservation |
| AmmLedger.CreatePoolFreshConserves | crates/pallets/simple-amm/src/lib.rs:165-183 | the corrected create_pool keeps conservation |
| AmmLedger.CreatePoolBreaksConservation | crates/pallets/simple-amm/src/lib.rs:179-183 | create_pool as written turns a conserving state into one whose orphaned balances exceed the new zero supply |

## Left out

- Blake3, HKDF, Poseidon and the Pallas curve internals: hashes are uninterpreted functions and points are discrete logs.
- Random sampling (`Scalar::random`, `Note::new`'s randomness, `commit`'s rng, `FullKeys::random`): the sample is a parameter.
- Signing and signature verification (crates/crypto/src/keys.rs:63-70, 93-97): these are stubs in the source.
- `decrypt_note`, `Note::encrypt` and `Note::decrypt`: stubs; the decrypt literal in note.rs does not compile as written.
- `pedersen_hash` (crates/crypto/src/primitives.rs:57-70) and `kdf`: stubs.
- The per-proof `verify` bodies (crates/crypto/src/proof.rs:49-53, 79-82) and Halo2 itself: these are the `ProofCheck` parameter.
- Poseidon `hash_two` and `hash_bytes`: placeholders. `hash_two` computes `(l + r)^3`, which is symmetric, contrary to hash.rs's own ordering test. `HashFields` takes `hash_two` as a parameter.
- point.rs beyond what `Group` states, and lib.rs's module declarations: thin wrappers.
- The persistent nullifier set's `open` and `persist`: disk I/O. The database path is carried along.
- serde, `Display`, `Debug` and hex formatting, except the length of `to_hex`.
- FRAME plumbing: `ensure_signed`, events, storage macros, weights and token transfers (the pallet moves none).
- Nullifiers.Hex: states the length of the hex form, not its digits.
- MerkleBatch: it wraps the corrected tree of `MerkleFrontier`, whereas the source's `BatchMerkleTree` wraps the tree as written; `MerkleBatchWritten` models that one.
- MerkleFrontier.Append: positions are `nat`; the source's `u64` never wraps below the 2^32 capacity.
- The incremental tree's `cached_roots`: a cache, never read for results.
- Amm.SetLpBalance: a `ValueQuery` entry set to zero is kept in the map rather than removed; balances read the same either way.
- Amm.Swap: asset and account ids are `nat`; only their equality is used.
- Amm.ChooseAmounts: states only the minimum of the side that was quoted, because add_liquidity never checks the desired side against its own minimum.

## Findings

| source | as written | input that shows it | evidently intended | confidence | as-written member | corrected member |
|---|---|---|---|---|---|---|
| crates/crypto/src/merkle.rs:146-150 | the frontier is truncated to one entry after every append, and `get_node` returns the empty hash for any node above it (229-231) | a tree of depth 2 or more with two leaves, the first nonzero: the first leaf's proof fails against the root | every appended leaf's proof verifies against the current root, as the multiple-leaves test expects | high, not executed | MerkleWritten.TwoLeafProofFails | MerkleFrontier.ProveVerifies |
| crates/crypto/src/primitives.rs:21-28 | up to 31 input bytes are placed at offsets 1 to 31, so the last one becomes the most significant byte and the value can exceed the field order; `unwrap_or(zero)` then gives zero | thirty zero bytes then 0xff | the comment's promise that 31 bytes stay below the modulus: the input in the low 31 bytes with the top byte zero | medium (the round-trip test expects the shifted layout), not executed | Primitives.BytesToFieldMayOverflow | Primitives.BytesToFieldLowRoundTrip |
| crates/pallets/simple-amm/src/lib.rs:165-183 | the pool is stored under the counter without checking the id is free, and the counter saturates at u32::MAX | counter at u32::MAX with a funded pool already stored there: it is replaced by an empty pool while its LP balances remain | a fresh id for each pool, or `PoolAlreadyExists`; LP balances sum to each pool's supply | low (needs 2^32 pools), not executed | AmmLedger.CreatePoolBreaksConservation | AmmLedger.CreatePoolFreshConserves |
