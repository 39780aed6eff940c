/** Pedersen commitments `v*G + r*H` over the discrete-log model of the
    Pallas group (`commitment.rs`). */
module Commitments {
  import opened CryptoTypes
  import opened ByteCodec
  import opened Scalars
  import opened Group

  /** Discrete logarithm of the blinding generator: H is G doubled 128 times. */
  const H_LOG: nat := 0x1_0000_0000_0000_0000_0000_0000_0000_0000

  /** The inverse of H_LOG modulo Q, and the quotient of `H_LOG * H_INV - 1` by Q. */
  const H_INV: nat := 24287180808527867637053272500191820003695825940752693271417890553812316095410
  const H_INV_QUOT: nat := 285494438378239856075344765276282421247

  datatype Commitment = Commitment(point: Point)

  /** The two generators of the scheme. */
  datatype Pedersen = Pedersen(g: Point, h: Point)

  /** The default generators: G, and H obtained by 128 doublings of G. */
  function New(): (s: Pedersen)
    ensures s.g == Generator()
    ensures s.h == H_LOG
  {
    HIsDoubledG();
    Pedersen(Generator(), DoubleN(Generator(), 128))
  }

  lemma HIsDoubledG()
    ensures DoubleN(Generator(), 128) == H_LOG
  {
    DoubleNIsPow2(Generator(), 128);
    Pow2Of128();
    ModOf(H_LOG, 0, H_LOG);
  }

  lemma Pow2Of128()
    ensures Pow2(128) == H_LOG
  {
    assert Pow2(2) == 4;
    Pow2Add(2, 2);
    assert Pow2(4) == 0x10;
    Pow2Add(4, 4);
    assert Pow2(8) == 0x100;
    Pow2Add(8, 8);
    assert Pow2(16) == 0x1_0000;
    Pow2Add(16, 16);
    assert Pow2(32) == 0x1_0000_0000;
    Pow2Add(32, 32);
    assert Pow2(64) == 0x1_0000_0000_0000_0000;
    Pow2Add(64, 64);
  }

  /** `value*G + blinding*H`, the u64 value lifted into the scalar field. */
  function CommitWithBlinding(s: Pedersen, value: uint64, blinding: Scalar): (r: Commitment)
    ensures r.point == (s.g * value + s.h * blinding) % Q
  {
    AddResidues(s.g * value, s.h * blinding);
    Commitment(PointAdd(PointMul(s.g, value), PointMul(s.h, blinding)))
  }

  /** Commit with a freshly sampled blinding; the sample is an input here. */
  function Commit(s: Pedersen, value: uint64, sampled: Scalar): (r: (Commitment, Scalar))
    ensures r.1 == sampled
    ensures Verify(s, r.0, value, r.1)
  {
    (CommitWithBlinding(s, value, sampled), sampled)
  }

  /** Recomputes the commitment and compares. */
  predicate Verify(s: Pedersen, c: Commitment, value: uint64, blinding: Scalar): (ok: bool)
    ensures ok <==> c.point == (s.g * value + s.h * blinding) % Q
  {
    c == CommitWithBlinding(s, value, blinding)
  }

  /** The commitment to zero: the identity point. */
  function Zero(): (c: Commitment)
    ensures IsZero(c)
  {
    Commitment(Identity())
  }

  /** The identity is the only commitment that adding to itself leaves unchanged. */
  predicate IsZero(c: Commitment): (b: bool)
    ensures b <==> CAdd(c, c) == c
  {
    IsIdentity(c.point)
  }

  /** Point addition; subtracting `b` again recovers `a`. */
  function CAdd(a: Commitment, b: Commitment): (r: Commitment)
    ensures PointSub(r.point, b.point) == a.point
  {
    SubAddCancel(a.point, b.point);
    Commitment(PointAdd(a.point, b.point))
  }

  /** Point subtraction; adding `b` back recovers `a`. */
  function CSub(a: Commitment, b: Commitment): (r: Commitment)
    ensures CAdd(r, b) == a
  {
    SubAddCancel(a.point, b.point);
    Commitment(PointSub(a.point, b.point))
  }

  /** Placeholder serialisation: always 32 zero bytes. */
  function ToBytes(c: Commitment): (b: Bytes)
    ensures b == Zeros(32)
  {
    Group.ToBytes(c.point)
  }

  /** Placeholder deserialisation: always the identity commitment. */
  function FromBytes(b: Bytes): (r: Result<Commitment>)
    requires |b| == 32
    ensures r == Ok(Zero())
  {
    // Point decoding never fails.
    Ok(Commitment(Group.FromBytes(b).value))
  }

  /** The placeholder codec round-trips exactly the zero commitment. */
  lemma CodecRoundTripOnlyZero(c: Commitment)
    ensures FromBytes(ToBytes(c)) == Ok(c) <==> IsZero(c)
  {
  }

  // ---------------------------------------------------------------------
  // Algebra of the default scheme.

  /** The discrete log of a default commitment is `v + 2^128 * r` modulo Q. */
  lemma CommitLog(value: uint64, blinding: Scalar)
    ensures CommitWithBlinding(New(), value, blinding).point == (value + H_LOG * blinding) % Q
  {
    var s := New();
    assert s.g * value + s.h * blinding == value + H_LOG * blinding;
  }

  /** The only multiple of Q strictly inside `(-2^64, 2^64)` is zero. */
  lemma SmallMultipleOfQ(d: int, m: int)
    requires d == Q * m
    requires -(U64_LIMIT as int) < d < U64_LIMIT
    ensures d == 0
  {
  }

  /** Multiplication by `2^128` is injective modulo Q: `H_INV` is its inverse. */
  lemma HInvertible(d: int, m: int)
    requires H_LOG * d == Q * m
    requires -(Q as int) < d < Q
    ensures d == 0
  {
    assert H_LOG * H_INV == 1 + Q * H_INV_QUOT;
    assert H_INV * (H_LOG * d) == d + Q * (H_INV_QUOT * d);
    var j := H_INV * m - H_INV_QUOT * d;
    assert d == Q * j;
  }

  /** The true opening is accepted. */
  lemma VerifyAcceptsOpening(value: uint64, blinding: Scalar)
    ensures Verify(New(), CommitWithBlinding(New(), value, blinding), value, blinding)
  {
  }

  /** A different value under the same blinding is rejected. */
  lemma VerifyRejectsOtherValue(value: uint64, other: uint64, blinding: Scalar)
    requires other != value
    ensures !Verify(New(), CommitWithBlinding(New(), value, blinding), other, blinding)
  {
    CommitLog(value, blinding);
    CommitLog(other, blinding);
    var x := value + H_LOG * blinding;
    var y := other + H_LOG * blinding;
    if x % Q == y % Q {
      var kx := x / Q;
      var ky := y / Q;
      assert value - other == Q * (kx - ky);
      SmallMultipleOfQ(value - other, kx - ky);
      assert false;
    }
  }

  /** A different blinding under the same value is rejected: `2^128` is
      invertible modulo Q, so `r -> 2^128 * r` is injective on scalars. */
  lemma VerifyRejectsOtherBlinding(value: uint64, blinding: Scalar, other: Scalar)
    requires other != blinding
    ensures !Verify(New(), CommitWithBlinding(New(), value, blinding), value, other)
  {
    CommitLog(value, blinding);
    CommitLog(value, other);
    var x := value + H_LOG * blinding;
    var y := value + H_LOG * other;
    if x % Q == y % Q {
      var m := x / Q - y / Q;
      var d := blinding - other;
      assert H_LOG * d == Q * m;
      HInvertible(d, m);
      assert false;
    }
  }

  /** The residue arithmetic behind `Homomorphic`: adding the two openings'
      discrete logs modulo Q gives the discrete log of the summed opening. */
  lemma OpeningsAdd(v1: nat, r1: Scalar, v2: nat, r2: Scalar)
    ensures Add((v1 + H_LOG * r1) % Q, (v2 + H_LOG * r2) % Q) == (v1 + v2 + H_LOG * Add(r1, r2)) % Q
  {
    var x1 := v1 + H_LOG * r1;
    var x2 := v2 + H_LOG * r2;
    var p1 := x1 % Q;
    var p2 := x2 % Q;
    var sum := Add(p1, p2);
    AddIsModular(p1, p2);
    AddIsModular(r1, r2);
    var t := if r1 + r2 < Q then 0 else 1;
    assert Add(r1, r2) == r1 + r2 - Q * t;
    var y := v1 + v2 + H_LOG * Add(r1, r2);
    assert y == x1 + x2 - Q * (H_LOG * t);
    var u := if p1 + p2 < Q then 0 else 1;
    assert sum == p1 + p2 - Q * u;
    assert x1 == Q * (x1 / Q) + p1;
    assert x2 == Q * (x2 / Q) + p2;
    assert y == sum + Q * (x1 / Q + x2 / Q + u - H_LOG * t);
    SameResidue(y, sum, x1 / Q + x2 / Q + u - H_LOG * t);
    ModOf(sum, 0, sum);
  }

  /** Commitments add as their openings add (values as integers, blindings modulo Q). */
  lemma Homomorphic(v1: uint64, r1: Scalar, v2: uint64, r2: Scalar)
    requires v1 + v2 < U64_LIMIT
    ensures CAdd(CommitWithBlinding(New(), v1, r1), CommitWithBlinding(New(), v2, r2))
            == CommitWithBlinding(New(), v1 + v2, Add(r1, r2))
  {
    CommitLog(v1, r1);
    CommitLog(v2, r2);
    CommitLog(v1 + v2, Add(r1, r2));
    OpeningsAdd(v1, r1, v2, r2);
  }

  /** The zero commitment is neutral, and subtraction undoes addition. */
  lemma ZeroAndSub(c: Commitment, d: Commitment)
    ensures IsZero(Zero())
    ensures CAdd(c, Zero()) == c
    ensures CSub(CAdd(c, d), d) == c
    ensures IsZero(CSub(c, c))
  {
    AddIsModular(c.point, 0);
    SubAddCancel(c.point, d.point);
    GroupLaws(c.point);
  }

  /** A commitment paired with the asset it is denominated in. */
  datatype ValueCommitment = ValueCommitment(commitment: Commitment, assetId: Digest)

  /** Builds a value commitment under the default generators. */
  function NewValueCommitment(value: uint64, assetId: Digest, sampled: Scalar): (r: (ValueCommitment, Scalar))
    ensures r.0.assetId == assetId
    ensures VerifyValueCommitment(r.0, value, r.1)
  {
    var (c, b) := Commit(New(), value, sampled);
    (ValueCommitment(c, assetId), b)
  }

  /** Checks the opening against the default generators; the asset is not consulted. */
  predicate VerifyValueCommitment(vc: ValueCommitment, value: uint64, blinding: Scalar)
  {
    Verify(New(), vc.commitment, value, blinding)
  }

  /** A value commitment accepts its own opening and rejects a different value. */
  lemma ValueCommitmentOpening(value: uint64, other: uint64, assetId: Digest, sampled: Scalar)
    requires other != value
    ensures VerifyValueCommitment(NewValueCommitment(value, assetId, sampled).0, value, sampled)
    ensures !VerifyValueCommitment(NewValueCommitment(value, assetId, sampled).0, other, sampled)
  {
    VerifyRejectsOtherValue(value, other, sampled);
  }
}
