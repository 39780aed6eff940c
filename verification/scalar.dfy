/** Elements of the Pallas scalar field, integers modulo the group order Q,
    with the 32-byte little-endian canonical codec of `scalar.rs`. */
module Scalars {
  import opened CryptoTypes
  import opened ByteCodec

  /** The order of the Pallas group, i.e. the modulus of its scalar field. */
  const Q: nat := 0x40000000000000000000000000000000224698fc0994a8dd8c46eb2100000001

  type Scalar = x: nat | x < Q

  function Zero(): Scalar { 0 }

  function One(): Scalar { 1 }

  /** Canonical decoding: the little-endian integer must already be below Q;
      it is never reduced. */
  function FromBytes(b: Bytes): (r: Result<Scalar>)
    requires |b| == 32
    ensures r.Ok? <==> FromLE(b) < Q
    ensures r.Err? ==> r.error == InvalidKey
    ensures r.Ok? ==> ToBytes(r.value) == b
  {
    var x := FromLE(b);
    ToFromLE(b);
    if x < Q then Ok(x) else Err(InvalidKey)
  }

  function ToBytes(s: Scalar): (b: Bytes)
    ensures |b| == 32
    ensures FromLE(b) == s
  {
    Q32Fits();
    FromToLE(s, 32);
    ToLE(s, 32)
  }

  lemma Q32Fits()
    ensures Q < Pow256(32)
  {
    assert Pow256(8) == 0x1_0000_0000_0000_0000;
    assert Pow256(16) == 0x1_0000_0000_0000_0000_0000_0000_0000_0000;
    assert Pow256(24) == 0x1_0000_0000_0000_0000_0000_0000_0000_0000_0000_0000_0000_0000;
    assert Pow256(32) == 0x1_0000000000000000000000000000000000000000000000000000000000000000;
  }

  /** Decoding an encoding returns the same scalar. */
  lemma FromToBytes(s: Scalar)
    ensures FromBytes(ToBytes(s)) == Ok(s)
  {
  }

  /** Two scalars with the same encoding are equal. */
  lemma ToBytesInjective(s: Scalar, t: Scalar)
    requires ToBytes(s) == ToBytes(t)
    ensures s == t
  {
  }

  /** Field addition: one subtraction of Q brings the sum back into range. */
  function Add(a: Scalar, b: Scalar): (r: Scalar)
    ensures a + b < Q ==> r == a + b
    ensures a + b >= Q ==> r == a + b - Q
  {
    assert (a + b) % Q == (if a + b < Q then a + b else a + b - Q) by {
      if a + b < Q { ModOf(a + b, 0, a + b); } else { ModOf(a + b, 1, a + b - Q); }
    }
    (a + b) % Q
  }

  /** Field subtraction: a negative difference wraps around by one Q. */
  function Sub(a: Scalar, b: Scalar): (r: Scalar)
    ensures a >= b ==> r == a - b
    ensures a < b ==> r == a - b + Q
  {
    assert (a - b) % Q == (if a >= b then a - b else a - b + Q) by {
      if a >= b { ModOf(a - b, 0, a - b); } else { ModOf(a - b, -1, a - b + Q); }
    }
    (a - b) % Q
  }

  /** Field multiplication: One is neutral and Zero absorbing; see
      `MulDistributes` for how it interacts with `Add`. */
  function Mul(a: Scalar, b: Scalar): (r: Scalar)
    ensures b == 1 ==> r == a
    ensures a == 0 || b == 0 ==> r == 0
  {
    assert b == 1 ==> (a * b) % Q == a by {
      if b == 1 { ModOf(a * b, 0, a); }
    }
    (a * b) % Q
  }

  /** Field negation: the additive inverse, with `-0 = 0`. */
  function Neg(a: Scalar): (r: Scalar)
    ensures a == 0 ==> r == 0
    ensures a != 0 ==> r == Q - a
    ensures Add(a, r) == 0
  {
    assert (Q - a) % Q == (if a == 0 then 0 else Q - a) by {
      if a == 0 { ModOf(Q - a, 1, 0); } else { ModOf(Q - a, 0, Q - a); }
    }
    (Q - a) % Q
  }

  /** `a % Q` is the unique representative `r` with `a = Q*k + r`. */
  lemma ModOf(a: int, k: int, r: int)
    requires 0 <= r < Q
    requires a == Q * k + r
    ensures a % Q == r
  {
  }

  /** `x` and `y` that differ by a multiple of Q have the same residue. */
  lemma SameResidue(x: int, y: int, k: int)
    requires x == y + Q * k
    ensures x % Q == y % Q
  {
    var r := y % Q;
    var m := y / Q;
    assert y == Q * m + r;
    ModOf(x, m + k, r);
  }

  /** Adding residues is adding the integers and then reducing. */
  lemma AddResidues(x: nat, y: nat)
    ensures Add(x % Q, y % Q) == (x + y) % Q
  {
    assert x == Q * (x / Q) + x % Q;
    assert y == Q * (y / Q) + y % Q;
    SameResidue(x % Q + y % Q, x + y, -(x / Q + y / Q));
  }

  /** Addition modulo Q: the sum and the integer sum differ by a multiple of Q. */
  lemma AddIsModular(a: Scalar, b: Scalar)
    ensures Add(a, b) == a + b || Add(a, b) == a + b - Q
    ensures Add(a, b) == Add(b, a)
    ensures Add(a, Zero()) == a
  {
    if a + b < Q {
      ModOf(a + b, 0, a + b);
    } else {
      ModOf(a + b, 1, a + b - Q);
    }
    ModOf(a, 0, a);
  }

  lemma AddAssoc(a: Scalar, b: Scalar, c: Scalar)
    ensures Add(Add(a, b), c) == Add(a, Add(b, c))
  {
    AddIsModular(a, b);
    AddIsModular(Add(a, b), c);
    AddIsModular(b, c);
    AddIsModular(a, Add(b, c));
  }

  /** Subtraction modulo Q undoes addition, in both orders. */
  lemma SubAddCancel(a: Scalar, b: Scalar)
    ensures Sub(Add(a, b), b) == a
    ensures Add(Sub(a, b), b) == a
  {
    AddIsModular(a, b);
    if a + b < Q {
      ModOf(a + b - b, 0, a);
    } else {
      ModOf(a + b - Q - b, -1, a);
    }
    if a >= b {
      ModOf(a - b, 0, a - b);
      AddIsModular(a - b, b);
    } else {
      ModOf(a - b, -1, a - b + Q);
      AddIsModular(a - b + Q, b);
    }
  }

  /** Multiplication modulo Q has One as neutral element and Zero as absorbing element. */
  lemma MulUnits(a: Scalar)
    ensures Mul(a, One()) == a
    ensures Mul(a, Zero()) == Zero()
  {
  }

  lemma MulComm(a: Scalar, b: Scalar)
    ensures Mul(a, b) == Mul(b, a)
  {
  }

  /** Multiplication distributes over addition in the field. */
  lemma {:induction false} MulDistributes(a: Scalar, b: Scalar, c: Scalar)
    ensures Mul(a, Add(b, c)) == Add(Mul(a, b), Mul(a, c))
  {
    var x, y := a * b, a * c;
    MulSumResidue(a, b, c);
    AddResidues(x, y);
    assert Mul(a, b) == x % Q && Mul(a, c) == y % Q;
    assert Mul(a, Add(b, c)) == (a * Add(b, c)) % Q;
  }

  /** Multiplying the reduced sum is multiplying the integer sum, up to Q. */
  lemma MulSumResidue(a: Scalar, b: Scalar, c: Scalar)
    ensures (a * Add(b, c)) % Q == (a * b + a * c) % Q
  {
    if b + c < Q {
      assert a * (b + c) == a * b + a * c;
    } else {
      assert a * (b + c - Q) == a * b + a * c - Q * a;
      SameResidue(a * Add(b, c), a * b + a * c, -(a as int));
    }
  }

  /** Subtraction is addition of the negation. */
  lemma SubIsAddNeg(a: Scalar, b: Scalar)
    ensures Sub(a, b) == Add(a, Neg(b))
  {
  }
}
