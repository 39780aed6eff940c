/** Little-endian integer codec over fixed-width byte strings, the
    representation Rust's `to_le_bytes` and the field `to_repr` use. */
module ByteCodec {
  import opened CryptoTypes

  function Pow256(n: nat): (p: nat)
    ensures p >= 1
  {
    if n == 0 then 1 else 256 * Pow256(n - 1)
  }

  function Pow2(n: nat): (p: nat)
    ensures p >= 1
  {
    if n == 0 then 1 else 2 * Pow2(n - 1)
  }

  /** Powers of two multiply as their exponents add. */
  lemma {:induction false} Pow2Add(a: nat, b: nat)
    ensures Pow2(a + b) == Pow2(a) * Pow2(b)
  {
    if a > 0 {
      Pow2Add(a - 1, b);
    }
  }

  /** Eight bytes hold exactly the u64 range. */
  lemma Pow256Of8()
    ensures Pow256(8) == U64_LIMIT
  {
    assert Pow256(4) == 0x1_0000_0000;
  }

  lemma ByteRoundTrip(k: int)
    requires 0 <= k < 256
    ensures (k as bv8) as int == k
  {
    // Splitting the range keeps the bit-vector conversion cheap.
    if k < 128 {
      if k < 64 {} else {}
    } else {
      if k < 192 {} else {}
    }
  }

  /** The low byte and the rest of `b + 256 * r`. */
  lemma ByteDivMod(b: byte, r: nat)
    ensures (b as nat + 256 * r) % 256 == b as nat
    ensures (b as nat + 256 * r) / 256 == r
    ensures ((b as nat + 256 * r) % 256) as bv8 == b
  {
  }

  /** The unsigned integer whose little-endian encoding is `b`. */
  function FromLE(b: Bytes): nat
  {
    if |b| == 0 then 0 else b[0] as nat + 256 * FromLE(b[1..])
  }

  /** The `n`-byte little-endian encoding of `x`, truncated to its low `n` bytes. */
  function ToLE(x: nat, n: nat): (b: Bytes)
    ensures |b| == n
  {
    if n == 0 then [] else [(x % 256) as bv8] + ToLE(x / 256, n - 1)
  }

  lemma {:induction false} FromLEBound(b: Bytes)
    ensures FromLE(b) < Pow256(|b|)
  {
    if |b| > 0 {
      FromLEBound(b[1..]);
    }
  }

  /** Decoding an encoding gives the number back when it fits in `n` bytes. */
  lemma {:induction false} FromToLE(x: nat, n: nat)
    requires x < Pow256(n)
    ensures FromLE(ToLE(x, n)) == x
  {
    if n > 0 {
      var p := Pow256(n - 1);
      assert x < 256 * p;
      assert x / 256 < p;
      FromToLE(x / 256, n - 1);
      var b := ToLE(x, n);
      assert b[1..] == ToLE(x / 256, n - 1);
      ByteRoundTrip(x % 256);
    }
  }

  /** Encoding a decoded byte string at its own width gives it back. */
  lemma {:induction false} ToFromLE(b: Bytes)
    ensures ToLE(FromLE(b), |b|) == b
  {
    if |b| > 0 {
      ToFromLE(b[1..]);
      var x, r := FromLE(b), FromLE(b[1..]);
      ByteDivMod(b[0], r);
      assert ToLE(x, |b|) == [b[0]] + ToLE(r, |b| - 1);
      assert b == [b[0]] + b[1..];
    }
  }

  /** The encoding at a fixed width is injective below `256^n`. */
  lemma ToLEInjective(x: nat, y: nat, n: nat)
    requires x < Pow256(n) && y < Pow256(n)
    requires x != y
    ensures ToLE(x, n) != ToLE(y, n)
  {
    FromToLE(x, n);
    FromToLE(y, n);
  }

  /** Decoding is injective on byte strings of equal width. */
  lemma FromLEInjective(a: Bytes, b: Bytes)
    requires |a| == |b| && a != b
    ensures FromLE(a) != FromLE(b)
  {
    ToFromLE(a);
    ToFromLE(b);
  }
}
