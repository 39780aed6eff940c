/** Pallas group elements, each represented by its discrete logarithm to
    the base G modulo Q: the generator is 1, the identity is 0, point
    addition is addition of logarithms and scalar multiplication is their
    product. The byte codec is the constant placeholder of `point.rs`. */
module Group {
  import opened CryptoTypes
  import opened ByteCodec
  import opened Scalars

  type Point = Scalar

  function Identity(): Point { 0 }

  function Generator(): Point { 1 }

  predicate IsIdentity(p: Point) { p == Identity() }

  function PointAdd(p: Point, q: Point): Point { Add(p, q) }

  function PointSub(p: Point, q: Point): Point { Sub(p, q) }

  /** `p * s`: scalar multiplication of a point. */
  function PointMul(p: Point, s: Scalar): Point { Mul(p, s) }

  function Double(p: Point): Point { Add(p, p) }

  /** `n` successive doublings of `p`. */
  function DoubleN(p: Point, n: nat): Point
  {
    if n == 0 then p else Double(DoubleN(p, n - 1))
  }

  /** Doubling `n` times multiplies the logarithm by `2^n` modulo Q. */
  lemma {:induction false} DoubleNIsPow2(p: Point, n: nat)
    ensures DoubleN(p, n) == (p * Pow2(n)) % Q
  {
    if n > 0 {
      DoubleNIsPow2(p, n - 1);
      var x := p * Pow2(n - 1);
      assert p * Pow2(n) == x + x by {
        assert Pow2(n) == 2 * Pow2(n - 1);
      }
      AddResidues(x, x);
    }
  }

  /** Placeholder encoding: every point serialises to 32 zero bytes. */
  function ToBytes(p: Point): (b: Bytes)
    ensures b == Zeros(32)
  {
    Zeros(32)
  }

  /** Placeholder decoding: every 32-byte string decodes to the identity. */
  function FromBytes(b: Bytes): (r: Result<Point>)
    requires |b| == 32
    ensures r == Ok(Identity())
  {
    Ok(Identity())
  }

  /** The identity is neutral, and `g - g` is the identity. */
  lemma GroupLaws(p: Point)
    ensures PointAdd(p, Identity()) == p
    ensures IsIdentity(PointSub(p, p))
    ensures !IsIdentity(Generator())
    ensures !IsIdentity(PointAdd(Generator(), Generator()))
  {
    AddIsModular(p, Identity());
    ModOf(p - p, 0, 0);
    ModOf(2, 0, 2);
  }
}
