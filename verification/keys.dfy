/** The nullifier deriving key of `nullifier.rs`, split from the rest of that
    file because `keys.rs` derives it and `nullifier.rs` uses notes. */
module NullifierKeys {
  import opened CryptoTypes
  import opened ByteCodec
  import opened Scalars
  import opened Hashing

  const NULLIFIER_KEY_TAG: string := "PRIVL1_NULLIFIER_KEY"

  datatype NullifierDerivingKey = NullifierDerivingKey(nk: Scalar)

  /** `unwrap_or(Scalar::zero())` after a canonical decoding of a digest. */
  function ScalarOrZero(d: Digest): (s: Scalar)
    ensures FromLE(d) < Q ==> s == FromLE(d)
    ensures FromLE(d) >= Q ==> s == 0
  {
    match Scalars.FromBytes(d)
    case Ok(v) => v
    case Err(_) => Zero()
  }

  /** The key is the scalar of `H("PRIVL1_NULLIFIER_KEY" ‖ 0 ‖ seed)`, or zero. */
  function NkFromSeed(blake3: Blake3Fn, seed: Digest): (k: NullifierDerivingKey)
    ensures k.nk == ScalarOrZero(blake3(Ascii(NULLIFIER_KEY_TAG) + [0] + seed))
  {
    var h := DomainHash(blake3, Ascii(NULLIFIER_KEY_TAG), [seed]);
    DomainHashPreimage(blake3, Ascii(NULLIFIER_KEY_TAG), [seed]);
    assert Concat([seed]) == seed;
    NullifierDerivingKey(ScalarOrZero(h))
  }
}

/** Spending, public, viewing and full key sets, and the signature codec
    (`keys.rs`). Every derivation is a domain-separated hash of the spending
    scalar's canonical bytes. */
module Keys {
  import opened CryptoTypes
  import opened ByteCodec
  import opened Scalars
  import opened Group
  import opened Hashing
  import opened NullifierKeys

  const SPENDING_KEY_TAG: string := "PRIVL1_SPENDING_KEY"
  const DERIVE_NK_TAG: string := "PRIVL1_DERIVE_NK"
  const DERIVE_IVK_TAG: string := "PRIVL1_DERIVE_IVK"
  const DERIVE_OVK_TAG: string := "PRIVL1_DERIVE_OVK"

  /** The five key-derivation tags of the crate. */
  const DERIVATION_TAGS: seq<string> :=
    [SPENDING_KEY_TAG, DERIVE_NK_TAG, DERIVE_IVK_TAG, DERIVE_OVK_TAG, NULLIFIER_KEY_TAG]

  datatype SpendingKey = SpendingKey(sk: Scalar)

  datatype PublicKey = PublicKey(point: Point)

  datatype ViewingKey = ViewingKey(ivk: Scalar, ovk: Scalar)

  datatype Signature = Signature(r: Point, s: Scalar)

  datatype FullKeys = FullKeys(
    spending: SpendingKey,
    public: PublicKey,
    viewing: ViewingKey,
    nullifier: NullifierDerivingKey)

  /** The scalar of `H(tag ‖ 0 ‖ data)`, or zero when that digest is not canonical. */
  function DeriveScalar(blake3: Blake3Fn, tag: string, data: Bytes): (s: Scalar)
    requires PrintableAscii(tag)
    ensures s == ScalarOrZero(blake3(Ascii(tag) + [0] + data))
  {
    DomainHashPreimage(blake3, Ascii(tag), [data]);
    assert Concat([data]) == data;
    ScalarOrZero(DomainHash(blake3, Ascii(tag), [data]))
  }

  function SpendingKeyFromSeed(blake3: Blake3Fn, seed: Digest): (k: SpendingKey)
    ensures k.sk == ScalarOrZero(blake3(Ascii(SPENDING_KEY_TAG) + [0] + seed))
  {
    SpendingKey(DeriveScalar(blake3, SPENDING_KEY_TAG, seed))
  }

  /** `nullifier_key`: the hash of the spending scalar's bytes under
      "PRIVL1_DERIVE_NK" seeds `NullifierDerivingKey::from_seed`. */
  function NullifierKey(blake3: Blake3Fn, k: SpendingKey): (n: NullifierDerivingKey)
    ensures n == NkFromSeed(blake3, blake3(Ascii(DERIVE_NK_TAG) + [0] + Scalars.ToBytes(k.sk)))
  {
    var skBytes := Scalars.ToBytes(k.sk);
    DomainHashPreimage(blake3, Ascii(DERIVE_NK_TAG), [skBytes]);
    assert Concat([skBytes]) == skBytes;
    NkFromSeed(blake3, DomainHash(blake3, Ascii(DERIVE_NK_TAG), [skBytes]))
  }

  /** The public key is `sk * G`, whose discrete logarithm is `sk` itself. */
  function PublicKeyOf(k: SpendingKey): (p: PublicKey)
    ensures p.point == k.sk
  {
    MulUnits(k.sk);
    MulComm(Generator(), k.sk);
    PublicKey(PointMul(Generator(), k.sk))
  }

  /** Delegates to the constant point encoding. */
  function PublicKeyToBytes(p: PublicKey): (b: Bytes)
    ensures |b| == 32
  {
    Group.ToBytes(p.point)
  }

  function PublicKeyFromBytes(b: Bytes): (r: Result<PublicKey>)
    requires |b| == 32
    ensures r == Ok(PublicKey(Identity()))
  {
    // Point decoding never fails.
    Ok(PublicKey(Group.FromBytes(b).value))
  }

  /** All public keys serialise to the same 32 bytes, which decode to the
      identity key; so the codec round-trips only the key of the zero scalar. */
  lemma PublicKeyCodecCollapses(p: PublicKey, q: PublicKey)
    ensures PublicKeyToBytes(p) == PublicKeyToBytes(q) == Zeros(32)
    ensures PublicKeyFromBytes(PublicKeyToBytes(p)) == Ok(p) <==> p.point == 0
  {
  }

  /** ivk and ovk hash the same spending-key bytes under two tags. */
  function ViewingKeyOf(blake3: Blake3Fn, k: SpendingKey): (v: ViewingKey)
    ensures v.ivk == ScalarOrZero(blake3(Ascii(DERIVE_IVK_TAG) + [0] + Scalars.ToBytes(k.sk)))
    ensures v.ovk == ScalarOrZero(blake3(Ascii(DERIVE_OVK_TAG) + [0] + Scalars.ToBytes(k.sk)))
  {
    var skBytes := Scalars.ToBytes(k.sk);
    ViewingKey(DeriveScalar(blake3, DERIVE_IVK_TAG, skBytes), DeriveScalar(blake3, DERIVE_OVK_TAG, skBytes))
  }

  function FullKeysFromSpendingKey(blake3: Blake3Fn, k: SpendingKey): (f: FullKeys)
    ensures f.spending == k
    ensures f.public.point == k.sk
    ensures f.viewing == ViewingKeyOf(blake3, k)
    ensures f.nullifier == NullifierKey(blake3, k)
  {
    FullKeys(k, PublicKeyOf(k), ViewingKeyOf(blake3, k), NullifierKey(blake3, k))
  }

  function FullKeysFromSeed(blake3: Blake3Fn, seed: Digest): (f: FullKeys)
    ensures f.spending == SpendingKeyFromSeed(blake3, seed)
    ensures f.public.point == f.spending.sk
  {
    FullKeysFromSpendingKey(blake3, SpendingKeyFromSeed(blake3, seed))
  }

  /** The five derivation tags are printable and pairwise distinct, so the
      preimages of two different derivations never coincide, whatever they hash. */
  lemma DerivationsSeparated(i: nat, j: nat, x: Bytes, y: Bytes)
    requires i < |DERIVATION_TAGS| && j < |DERIVATION_TAGS| && i != j
    ensures Ascii(DERIVATION_TAGS[i]) + [0] + x != Ascii(DERIVATION_TAGS[j]) + [0] + y
  {
    TagsPrintable(i);
    TagsPrintable(j);
    assert DERIVATION_TAGS[i] != DERIVATION_TAGS[j] by {
      TagsDistinct(i, j);
    }
    TagsSeparate(DERIVATION_TAGS[i], DERIVATION_TAGS[j], x, y);
  }

  /** Every derivation tag is printable ASCII. */
  lemma TagsPrintable(i: nat)
    requires i < |DERIVATION_TAGS|
    ensures PrintableAscii(DERIVATION_TAGS[i])
  {
    if i == 0 {
      assert PrintableAscii(SPENDING_KEY_TAG);
    } else if i == 1 {
      assert PrintableAscii(DERIVE_NK_TAG);
    } else if i == 2 {
      assert PrintableAscii(DERIVE_IVK_TAG);
    } else if i == 3 {
      assert PrintableAscii(DERIVE_OVK_TAG);
    } else {
      assert PrintableAscii(NULLIFIER_KEY_TAG);
    }
  }

  /** No two derivation tags are equal. */
  lemma TagsDistinct(i: nat, j: nat)
    requires i < |DERIVATION_TAGS| && j < |DERIVATION_TAGS| && i != j
    ensures DERIVATION_TAGS[i] != DERIVATION_TAGS[j]
  {
    // The IVK and OVK tags have equal length and differ at index 14.
    assert DERIVE_IVK_TAG[14] != DERIVE_OVK_TAG[14];
  }

  /** Two seeds whose derivation digests are both non-canonical give the same,
      zero, spending key: `from_seed` is not injective. */
  lemma SeedsMayCollapse(blake3: Blake3Fn, s1: Digest, s2: Digest)
    requires FromLE(blake3(Ascii(SPENDING_KEY_TAG) + [0] + s1)) >= Q
    requires FromLE(blake3(Ascii(SPENDING_KEY_TAG) + [0] + s2)) >= Q
    ensures SpendingKeyFromSeed(blake3, s1) == SpendingKeyFromSeed(blake3, s2) == SpendingKey(0)
  {
  }

  // ---------------------------------------------------------------------
  // Signature codec.

  /** `r ‖ s`: the constant point encoding then the scalar's canonical bytes. */
  function SignatureToBytes(sig: Signature): (b: Bytes)
    ensures |b| == 64
    ensures b[..32] == Zeros(32)
    ensures b[32..] == Scalars.ToBytes(sig.s)
  {
    Group.ToBytes(sig.r) + Scalars.ToBytes(sig.s)
  }

  /** Rejects any length but 64, then decodes both halves, the point first. */
  function SignatureFromBytes(b: Bytes): (r: Result<Signature>)
    ensures r.Ok? <==> |b| == 64 && FromLE(b[32..]) < Q
    ensures r.Err? ==> r.error == InvalidKey
    ensures r.Ok? ==> r.value.r == Identity() && Scalars.ToBytes(r.value.s) == b[32..]
  {
    if |b| != 64 then Err(InvalidKey)
    else
      var rb := b[0..32];
      var sb := b[32..64];
      assert sb == b[32..];
      // Point decoding never fails; the scalar decoding may.
      var r := Group.FromBytes(rb).value;
      var s :- Scalars.FromBytes(sb);
      Ok(Signature(r, s))
  }

  /** Decoding an encoded signature keeps `s` and resets `r` to the identity. */
  lemma SignatureRoundTrip(sig: Signature)
    ensures SignatureFromBytes(SignatureToBytes(sig)) == Ok(sig.(r := Identity()))
  {
    var b := SignatureToBytes(sig);
    FromToBytes(sig.s);
    assert b[32..] == Scalars.ToBytes(sig.s);
  }
}
