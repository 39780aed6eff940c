/** The hashing layer of `hash.rs`: a streaming Blake3 hasher, the
    domain-separated hasher built on it, the Merkle node hash, the `Hash`
    enum's byte view, and the fold structure of the Poseidon field hash.
    Blake3 itself is an uninterpreted function from byte strings to digests:
    a hasher is modelled by the bytes it has absorbed so far. */
module Hashing {
  import opened CryptoTypes
  import opened ByteCodec

  /** The Blake3 compression as a whole: any function from preimages to digests. */
  type Blake3Fn = Bytes -> Digest

  /** A streaming hasher: the concatenation of everything fed to it. */
  datatype HasherState = HasherState(absorbed: Bytes)

  function NewHasher(): (h: HasherState)
    ensures h.absorbed == []
  {
    HasherState([])
  }

  function Update(h: HasherState, data: Bytes): (h': HasherState)
    ensures h'.absorbed == h.absorbed + data
  {
    HasherState(h.absorbed + data)
  }

  /** The digest of everything absorbed. */
  function Finalize(blake3: Blake3Fn, h: HasherState): Digest
  {
    blake3(h.absorbed)
  }

  /** `Hasher::hash`: new, one update, finalize. */
  function HashOnce(blake3: Blake3Fn, data: Bytes): Digest
  {
    Finalize(blake3, Update(NewHasher(), data))
  }

  /** One-shot hashing is Blake3 of the data. */
  lemma HashOnceIsBlake3(blake3: Blake3Fn, data: Bytes)
    ensures HashOnce(blake3, data) == blake3(data)
  {
    assert [] + data == data;
  }

  /** Two successive updates are one update with the concatenation. */
  lemma UpdatesConcatenate(h: HasherState, a: Bytes, b: Bytes)
    ensures Update(Update(h, a), b) == Update(h, a + b)
  {
    assert h.absorbed + a + b == h.absorbed + (a + b);
  }

  // ---------------------------------------------------------------------
  // Domain separation.

  /** A hasher primed with a domain tag followed by a NUL separator. */
  datatype DomainHasher = DomainHasher(domain: Bytes, state: HasherState)

  function NewDomainHasher(domain: Bytes): (d: DomainHasher)
    ensures d.domain == domain
    ensures d.state.absorbed == domain + [0]
  {
    DomainHasher(domain, Update(Update(NewHasher(), domain), [0]))
  }

  function DomainUpdate(d: DomainHasher, data: Bytes): (d': DomainHasher)
    ensures d'.domain == d.domain
    ensures d'.state.absorbed == d.state.absorbed + data
  {
    d.(state := Update(d.state, data))
  }

  function DomainFinalize(blake3: Blake3Fn, d: DomainHasher): Digest
  {
    Finalize(blake3, d.state)
  }

  /** The preimage a domain hasher fed with `parts` in order hashes. */
  function DomainPreimage(domain: Bytes, parts: seq<Bytes>): Bytes
  {
    domain + [0] + Concat(parts)
  }

  function Concat(parts: seq<Bytes>): Bytes
  {
    if |parts| == 0 then [] else parts[0] + Concat(parts[1..])
  }

  /** Feeds `parts` to a fresh domain hasher, one update each, and finalizes. */
  function DomainHash(blake3: Blake3Fn, domain: Bytes, parts: seq<Bytes>): Digest
  {
    DomainFinalize(blake3, FeedAll(NewDomainHasher(domain), parts))
  }

  function FeedAll(d: DomainHasher, parts: seq<Bytes>): (d': DomainHasher)
    ensures d'.domain == d.domain
    decreases |parts|
  {
    if |parts| == 0 then d else FeedAll(DomainUpdate(d, parts[0]), parts[1..])
  }

  /** Feeding the parts one by one absorbs their concatenation. */
  lemma {:induction false} FeedAllAbsorbs(d: DomainHasher, parts: seq<Bytes>)
    ensures FeedAll(d, parts).state.absorbed == d.state.absorbed + Concat(parts)
    decreases |parts|
  {
    if |parts| > 0 {
      FeedAllAbsorbs(DomainUpdate(d, parts[0]), parts[1..]);
      assert d.state.absorbed + parts[0] + Concat(parts[1..])
          == d.state.absorbed + (parts[0] + Concat(parts[1..]));
    }
  }

  /** The digest of a domain hasher is Blake3 of tag ‖ 0x00 ‖ the updates in order. */
  lemma DomainHashPreimage(blake3: Blake3Fn, domain: Bytes, parts: seq<Bytes>)
    ensures DomainHash(blake3, domain, parts) == blake3(DomainPreimage(domain, parts))
  {
    FeedAllAbsorbs(NewDomainHasher(domain), parts);
  }

  /** Two distinct NUL-free tags give distinct preimages, whatever data follows
      either of them: the NUL ends the shorter tag where the longer one
      continues, and equal-length tags differ at some byte. */
  lemma {:induction false} DomainSeparation(d1: Bytes, d2: Bytes, x: Bytes, y: Bytes)
    requires NoNul(d1) && NoNul(d2)
    requires d1 != d2
    ensures d1 + [0] + x != d2 + [0] + y
  {
    var p1 := d1 + [0] + x;
    var p2 := d2 + [0] + y;
    if |d1| < |d2| {
      assert p1[|d1|] == 0;
      assert p2[|d1|] == d2[|d1|] != 0;
    } else if |d2| < |d1| {
      assert p2[|d2|] == 0;
      assert p1[|d2|] == d1[|d2|] != 0;
    } else {
      var i :| 0 <= i < |d1| && d1[i] != d2[i];
      assert p1[i] == d1[i];
      assert p2[i] == d2[i];
    }
  }

  /** A string of printable ASCII: what every domain tag of the crate is. */
  predicate PrintableAscii(s: string)
  {
    forall i :: 0 <= i < |s| ==> 0 < s[i] as int < 128
  }

  /** The bytes of a printable tag contain no NUL, and distinct tags have
      distinct bytes. */
  lemma {:induction false} TagBytes(s: string, t: string)
    requires PrintableAscii(s) && PrintableAscii(t)
    ensures NoNul(Ascii(s))
    ensures s != t ==> Ascii(s) != Ascii(t)
  {
    forall i | 0 <= i < |s|
      ensures Ascii(s)[i] != 0
    {
      ByteRoundTrip(s[i] as int);
    }
    if s != t && |s| == |t| {
      var i :| 0 <= i < |s| && s[i] != t[i];
      ByteRoundTrip(s[i] as int);
      ByteRoundTrip(t[i] as int);
      assert Ascii(s)[i] != Ascii(t)[i];
    }
  }

  /** Domain separation for string tags, the form the crate writes them in. */
  lemma TagsSeparate(s: string, t: string, x: Bytes, y: Bytes)
    requires PrintableAscii(s) && PrintableAscii(t)
    requires s != t
    ensures Ascii(s) + [0] + x != Ascii(t) + [0] + y
  {
    TagBytes(s, t);
    TagBytes(t, s);
    DomainSeparation(Ascii(s), Ascii(t), x, y);
  }

  // ---------------------------------------------------------------------
  // Merkle node hash.

  /** `merkle_hash`: Blake3 of the 64-byte concatenation left ‖ right. */
  function MerkleHash(blake3: Blake3Fn, left: Digest, right: Digest): Digest
  {
    Finalize(blake3, Update(Update(NewHasher(), left), right))
  }

  /** The node hash reads left ‖ right, 64 bytes, and swapping two unequal
      children changes the preimage. */
  lemma MerkleHashPreimage(blake3: Blake3Fn, left: Digest, right: Digest)
    ensures MerkleHash(blake3, left, right) == blake3(left + right)
    ensures |left + right| == 64
    ensures left != right ==> left + right != right + left
  {
    assert [] + left + right == left + right;
    if left != right {
      assert (left + right)[..32] == left;
      assert (right + left)[..32] == right;
    }
  }

  // ---------------------------------------------------------------------
  // The `Hash` enum.

  /** Elements of the Pallas base field, the carrier of Poseidon hashes. */
  const P: nat := 0x40000000000000000000000000000000224698fc094cf91b992d30ed00000001

  type Base = x: nat | x < P

  datatype Hash = Blake3Hash(digest: Digest) | PoseidonHash(field: Base)

  /** `Hash::blake3`. */
  function HashBlake3(blake3: Blake3Fn, data: Bytes): (h: Hash)
    ensures h.Blake3Hash? && h.digest == blake3(data)
  {
    HashOnceIsBlake3(blake3, data);
    Blake3Hash(HashOnce(blake3, data))
  }

  /** Byte view: the digest for Blake3, nothing for Poseidon. */
  function HashToBytes(h: Hash): (b: Bytes)
    ensures h.Blake3Hash? ==> b == h.digest
    ensures h.PoseidonHash? ==> b == []
  {
    match h
    case Blake3Hash(d) => d
    case PoseidonHash(_) => []
  }

  /** The byte view tells Blake3 hashes apart, and never tells Poseidon hashes apart. */
  lemma HashToBytesDistinguishes(a: Hash, b: Hash)
    ensures a.Blake3Hash? && b.Blake3Hash? ==> (HashToBytes(a) == HashToBytes(b) <==> a == b)
    ensures a.PoseidonHash? && b.PoseidonHash? ==> HashToBytes(a) == HashToBytes(b)
    ensures a.Blake3Hash? && b.PoseidonHash? ==> HashToBytes(a) != HashToBytes(b)
  {
  }

  // ---------------------------------------------------------------------
  // Poseidon field hashing: only the fold structure, with `hash_two` a parameter.

  type HashTwoFn = (Base, Base) -> Base

  /** The loop of `hash_fields` carrying `acc` over the remaining elements. */
  function FoldTwo(hashTwo: HashTwoFn, acc: Base, rest: seq<Base>): Base
    decreases |rest|
  {
    if |rest| == 0 then acc else FoldTwo(hashTwo, hashTwo(acc, rest[0]), rest[1..])
  }

  /** `hash_fields`: zero for no input, else a left fold from the first element. */
  function HashFields(hashTwo: HashTwoFn, fields: seq<Base>): Base
  {
    if |fields| == 0 then 0 else FoldTwo(hashTwo, fields[0], fields[1..])
  }

  lemma {:induction false} FoldTwoSnoc(hashTwo: HashTwoFn, acc: Base, rest: seq<Base>, x: Base)
    ensures FoldTwo(hashTwo, acc, rest + [x]) == hashTwo(FoldTwo(hashTwo, acc, rest), x)
    decreases |rest|
  {
    if |rest| == 0 {
      assert rest + [x] == [x];
    } else {
      assert (rest + [x])[1..] == rest[1..] + [x];
      FoldTwoSnoc(hashTwo, hashTwo(acc, rest[0]), rest[1..], x);
    }
  }

  /** `hash_fields` of one element is that element, and appending an element
      hashes it onto the running result. */
  lemma HashFieldsFold(hashTwo: HashTwoFn, fields: seq<Base>, x: Base)
    ensures HashFields(hashTwo, []) == 0
    ensures HashFields(hashTwo, [x]) == x
    ensures |fields| > 0 ==> HashFields(hashTwo, fields + [x]) == hashTwo(HashFields(hashTwo, fields), x)
  {
    if |fields| > 0 {
      assert (fields + [x])[1..] == fields[1..] + [x];
      FoldTwoSnoc(hashTwo, fields[0], fields[1..], x);
    }
  }
}
