/** The byte-level helpers of `primitives.rs`: constant-time comparison,
    xor, the field-element byte conversions and erasure. Field elements are
    `pallas::Scalar`, the integers below `Q`, with the canonical
    little-endian codec of `Scalars`. */
module Primitives {
  import opened CryptoTypes
  import opened ByteCodec
  import opened Scalars
  import opened NatArith

  /** `ct_eq`: false on a length mismatch; otherwise every byte pair is
      folded into one difference, with no early exit. */
  method CtEq(a: Bytes, b: Bytes) returns (eq: bool)
    ensures eq <==> a == b
  {
    if |a| != |b| {
      return false;
    }
    var diff: bv8 := 0;
    var i := 0;
    while i < |a|
      invariant 0 <= i <= |a|
      invariant diff == 0 <==> a[..i] == b[..i]
    {
      assert a[..i + 1] == a[..i] + [a[i]];
      assert b[..i + 1] == b[..i] + [b[i]];
      diff := diff | (a[i] ^ b[i]);
      i := i + 1;
    }
    assert a[..i] == a && b[..i] == b;
    eq := diff == 0;
  }

  /** `xor_bytes`: the caller must pass equal lengths (the source asserts it). */
  function XorBytes(a: Bytes, b: Bytes): (r: Bytes)
    requires |a| == |b|
    ensures |r| == |a|
    ensures forall i :: 0 <= i < |a| ==> r[i] == a[i] ^ b[i]
  {
    seq(|a|, i requires 0 <= i < |a| => a[i] ^ b[i])
  }

  /** Xoring twice with the same pad restores the input, and a string xored
      with itself is all zeros. */
  lemma XorInvolution(a: Bytes, pad: Bytes)
    requires |a| == |pad|
    ensures XorBytes(XorBytes(a, pad), pad) == a
    ensures XorBytes(a, a) == Zeros(|a|)
  {
    assert forall i :: 0 <= i < |a| ==> (a[i] ^ pad[i]) ^ pad[i] == a[i];
  }

  /** `from_repr(..).unwrap_or(zero)`: the canonical value, or zero. */
  function ReprOrZero(input: Bytes): (f: Scalar)
    requires |input| == 32
    ensures FromLE(input) < Q ==> ToBytes(f) == input
    ensures FromLE(input) >= Q ==> f == 0
  {
    match Scalars.FromBytes(input)
    case Ok(v) => v
    case Err(_) => Zero()
  }

  /** `field_to_bytes`: the canonical 32-byte representation. */
  function FieldToBytes(f: Scalar): (b: Bytes)
    ensures |b| == 32 && FromLE(b) == f
  {
    ToBytes(f)
  }

  /** The 32-byte buffer `bytes_to_field` decodes: byte 0 is zero, the first
      `min(len, 31)` input bytes follow, the rest is zero. */
  function FieldInput(b: Bytes): (input: Bytes)
    ensures |input| == 32 && input[0] == 0
    ensures forall i :: 0 <= i < |b| && i < 31 ==> input[i + 1] == b[i]
    ensures forall i :: |b| < i < 32 ==> input[i] == 0
  {
    var len := if |b| < 31 then |b| else 31;
    [0] + b[..len] + Zeros(31 - len)
  }

  /** `bytes_to_field`, as written. */
  function BytesToField(b: Bytes): (f: Scalar)
    ensures FromLE(FieldInput(b)) < Q ==> f == FromLE(FieldInput(b))
    ensures FromLE(FieldInput(b)) >= Q ==> f == 0
  {
    ReprOrZero(FieldInput(b))
  }

  /** For a 31-byte input whose buffer is canonical, `field_to_bytes` gives
      the input back at offsets 1..32. */
  lemma BytesToFieldRoundTrip(b: Bytes)
    requires |b| == 31 && FromLE(FieldInput(b)) < Q
    ensures FieldToBytes(BytesToField(b))[1..32] == b
  {
    assert FieldInput(b)[1..32] == b;
  }

  /** A zero run followed by one byte is that byte times a power of 256. */
  lemma {:induction false} FromLEZerosThen(n: nat, x: byte)
    ensures FromLE(Zeros(n) + [x]) == FromLE([x]) * Pow256(n)
  {
    if n == 0 {
      assert Zeros(n) + [x] == [x];
    } else {
      assert (Zeros(n) + [x])[1..] == Zeros(n - 1) + [x] && (Zeros(n) + [x])[0] == 0;
      FromLEZerosThen(n - 1, x);
      MulLeftCommute(256, FromLE([x]), Pow256(n - 1));
    }
  }

  lemma Pow256Of31()
    ensures Pow256(31) == 0x1_00000000000000000000000000000000000000000000000000000000000000
  {
    assert Pow256(8) == 0x1_0000_0000_0000_0000;
    assert Pow256(16) == 0x1_0000_0000_0000_0000_0000_0000_0000_0000;
    assert Pow256(24) == 0x1_0000_0000_0000_0000_0000_0000_0000_0000_0000_0000_0000_0000;
  }

  /** Keeping 31 bytes does not keep the value below the modulus: the byte
      string of thirty zeros then 0xff puts 0xff in the most significant
      byte, the buffer is not canonical, and the input decodes to zero and
      does not round-trip. */
  lemma BytesToFieldMayOverflow()
    ensures BytesToField(Zeros(30) + [0xff]) == 0
    ensures FieldToBytes(BytesToField(Zeros(30) + [0xff]))[1..32] != Zeros(30) + [0xff]
  {
    var b := Zeros(30) + [0xff];
    assert FieldInput(b) == Zeros(31) + [0xff];
    FromLEZerosThen(31, 0xff);
    assert FromLE([0xff]) == 0xff by {
      assert [0xff as byte][1..] == [];
    }
    Pow256Of31();
    FromLEAllZero(32);
    if FieldToBytes(0) != Zeros(32) {
      FromLEInjective(FieldToBytes(0), Zeros(32));
    }
    assert (Zeros(30) + [0xff])[30] == 0xff;
    assert FieldToBytes(0)[1..32][30] == 0;
  }

  // ---------------------------------------------------------------------
  // The layout the comment promises.

  /** Zero bytes appended at the most significant end do not change the value. */
  lemma {:induction false} FromLEPadded(x: Bytes, n: nat)
    ensures FromLE(x + Zeros(n)) == FromLE(x)
  {
    if |x| == 0 {
      FromLEAllZero(n);
      assert x + Zeros(n) == Zeros(n);
    } else {
      assert (x + Zeros(n))[1..] == x[1..] + Zeros(n);
      FromLEPadded(x[1..], n);
    }
  }

  lemma {:induction false} FromLEAllZero(n: nat)
    ensures FromLE(Zeros(n)) == 0
  {
    if n > 0 {
      assert Zeros(n)[1..] == Zeros(n - 1);
      FromLEAllZero(n - 1);
    }
  }

  /** `bytes_to_field` with the input in the low 31 bytes and the top byte
      zero, so that every input is below the modulus. */
  function BytesToFieldLow(b: Bytes): (f: Scalar)
    ensures |b| <= 31 ==> FromLE(b) == f
  {
    var len := if |b| < 31 then |b| else 31;
    var input := b[..len] + Zeros(32 - len);
    FromLEPadded(b[..len], 32 - len);
    FromLEBound(b[..len]);
    Pow256Of31();
    assert Pow256(len) <= Pow256(31) by {
      Pow256Monotone(len, 31);
    }
    assert FromLE(input) < Q;
    assert |b| <= 31 ==> b[..len] == b;
    ReprOrZero(input)
  }

  lemma {:induction false} Pow256Monotone(a: nat, b: nat)
    requires a <= b
    ensures Pow256(a) <= Pow256(b)
  {
    if a < b {
      Pow256Monotone(a, b - 1);
    }
  }

  /** With that layout, every 31-byte input round-trips. */
  lemma BytesToFieldLowRoundTrip(b: Bytes)
    requires |b| == 31
    ensures FieldToBytes(BytesToFieldLow(b))[..31] == b
  {
    var f := BytesToFieldLow(b);
    ToFromLE(b + Zeros(1));
    FromLEPadded(b, 1);
    assert FieldToBytes(f) == ToLE(FromLE(b + Zeros(1)), 32);
    assert (b + Zeros(1))[..31] == b;
  }

  // ---------------------------------------------------------------------
  // Erasure.

  /** `secure_erase`: every byte set to zero, in place. */
  method SecureErase(data: Bytes) returns (erased: Bytes)
    ensures |erased| == |data|
    ensures forall i :: 0 <= i < |erased| ==> erased[i] == 0
  {
    erased := data;
    var i := 0;
    while i < |erased|
      invariant 0 <= i <= |erased| == |data|
      invariant forall j :: 0 <= j < i ==> erased[j] == 0
    {
      erased := erased[i := 0];
      i := i + 1;
    }
  }
}
