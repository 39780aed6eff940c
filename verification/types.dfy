/** Shared vocabulary of the crypto crate: bytes, 32-byte digests, the
    crate-wide error enum and its result type. */
module CryptoTypes {

  type byte = bv8
  type Bytes = seq<byte>

  /** A 32-byte value: Blake3 digests, Merkle nodes, asset ids, nullifiers. */
  type Digest = d: Bytes | |d| == 32 witness seq(32, _ => 0)

  const U64_LIMIT: nat := 0x1_0000_0000_0000_0000
  const U32_LIMIT: nat := 0x1_0000_0000

  type uint64 = x: nat | x < U64_LIMIT
  type uint32 = x: nat | x < U32_LIMIT

  /** `n` zero bytes. */
  function Zeros(n: nat): (z: Bytes)
    ensures |z| == n
    ensures forall i :: 0 <= i < n ==> z[i] == 0
  {
    seq(n, _ => 0)
  }

  const ZeroDigest: Digest := Zeros(32)

  /** The error enum shared by every module of the crate. The `String`
      payloads are kept because callers can observe them. */
  datatype CryptoError =
    | InvalidKey
    | InvalidCommitment
    | InvalidProof
    | MerkleError(reason: string)
    | SerializationError(reason: string)
    | OperationFailed(reason: string)

  datatype Result<+T> = Ok(value: T) | Err(error: CryptoError)
  {
    predicate IsFailure() { Err? }

    function PropagateFailure<U>(): Result<U>
      requires Err?
    {
      Err(error)
    }

    function Extract(): T
      requires Ok?
    {
      value
    }
  }

  datatype Option<+T> = None | Some(value: T)

  /** Encoding of an ASCII string literal as its UTF-8 bytes. */
  function Ascii(s: string): (b: Bytes)
    requires forall i :: 0 <= i < |s| ==> s[i] as int < 128
    ensures |b| == |s|
  {
    seq(|s|, i requires 0 <= i < |s| => (s[i] as int) as bv8)
  }

  /** No byte is the NUL separator. */
  predicate NoNul(b: Bytes)
  {
    forall i :: 0 <= i < |b| ==> b[i] != 0
  }
}
