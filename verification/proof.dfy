/** The proof envelope of `proof.rs`: verification keys identified by the
    Blake3 hash of their data, a registry of them, and the ordered check of
    a transaction's spend and output proofs. Verifying one proof against its
    key is a parameter, since the source's body for it is a placeholder. */
module Proofs {
  import opened CryptoTypes
  import opened Hashing
  import Notes

  datatype ProofSystem = Halo2 | Groth16 | Bulletproofs

  datatype Halo2Proof = Halo2Proof(proof: Bytes, publicInputs: seq<Bytes>, vkId: Digest)

  /** The proof's byte length. */
  function Size(pf: Halo2Proof): (n: nat)
    ensures n == 0 <==> pf.proof == []
  {
    |pf.proof|
  }

  /** The size counts the proof bytes only: public inputs and key id do not
      enter it. */
  lemma SizeCountsProofBytes(pf: Halo2Proof, inputs: seq<Bytes>, vkId: Digest)
    ensures Size(pf.(publicInputs := inputs, vkId := vkId)) == Size(pf)
    ensures Size(Halo2Proof([1, 2, 3], [[4, 5, 6]], vkId)) == 3
  {
  }

  datatype VerificationKey = VerificationKey(keyType: ProofSystem, keyData: Bytes, keyHash: Digest)

  /** `VerificationKey::new`: the identifier is Blake3 of the key data. */
  function NewVerificationKey(blake3: Blake3Fn, keyType: ProofSystem, keyData: Bytes): (vk: VerificationKey)
    ensures vk.keyType == keyType && vk.keyData == keyData
    ensures Id(vk) == blake3(keyData)
  {
    HashOnceIsBlake3(blake3, keyData);
    VerificationKey(keyType, keyData, HashOnce(blake3, keyData))
  }

  function Id(vk: VerificationKey): Digest
  {
    vk.keyHash
  }

  /** Two keys built from the same data have the same identifier, whatever
      proof system they are tagged with. */
  lemma IdDependsOnlyOnData(blake3: Blake3Fn, s1: ProofSystem, s2: ProofSystem, data: Bytes)
    ensures Id(NewVerificationKey(blake3, s1, data)) == Id(NewVerificationKey(blake3, s2, data))
  {
  }

  /** `Halo2Proof::verify` against a key: supplied by the caller. */
  type ProofCheck = (Halo2Proof, VerificationKey) -> Result<bool>

  datatype AggregatedProof = AggregatedProof(proof: Halo2Proof, numProofs: uint32, aggregationRoot: Digest)

  /** `AggregatedProof::new`: the aggregation root is Blake3 of the proof bytes. */
  function NewAggregatedProof(blake3: Blake3Fn, proof: Halo2Proof, numProofs: uint32): (a: AggregatedProof)
    ensures a.proof == proof && a.numProofs == numProofs
    ensures a.aggregationRoot == blake3(proof.proof)
    ensures Size(a.proof) == |proof.proof|
  {
    HashOnceIsBlake3(blake3, proof.proof);
    AggregatedProof(proof, numProofs, HashOnce(blake3, proof.proof))
  }

  // ---------------------------------------------------------------------
  // The registry.

  datatype ProofVerifier = ProofVerifier(vks: map<Digest, VerificationKey>)

  function NewVerifier(): (v: ProofVerifier)
    ensures |v.vks| == 0
  {
    ProofVerifier(map[])
  }

  /** `register_vk`: the key under its identifier, replacing any earlier
      key with that identifier; every other entry is kept. */
  function RegisterVk(v: ProofVerifier, vk: VerificationKey): (v': ProofVerifier)
    ensures Id(vk) in v'.vks && v'.vks[Id(vk)] == vk
    ensures v'.vks.Keys == v.vks.Keys + {Id(vk)}
    ensures forall id :: id in v.vks && id != Id(vk) ==> v'.vks[id] == v.vks[id]
  {
    ProofVerifier(v.vks[Id(vk) := vk])
  }

  /** `verify_halo2`: `InvalidProof` for an unregistered key identifier,
      else the check against the registered key. */
  function VerifyHalo2(check: ProofCheck, v: ProofVerifier, pf: Halo2Proof): (r: Result<bool>)
    ensures pf.vkId !in v.vks ==> r == Err(InvalidProof)
    ensures pf.vkId in v.vks ==> r == check(pf, v.vks[pf.vkId])
  {
    if pf.vkId in v.vks then check(pf, v.vks[pf.vkId]) else Err(InvalidProof)
  }

  /** A proof naming a freshly registered key is checked against that key;
      one naming no key of an empty registry is rejected. */
  lemma RegisteredKeyIsUsed(check: ProofCheck, v: ProofVerifier, vk: VerificationKey, pf: Halo2Proof)
    ensures pf.vkId == Id(vk) ==> VerifyHalo2(check, RegisterVk(v, vk), pf) == check(pf, vk)
    ensures VerifyHalo2(check, NewVerifier(), pf) == Err(InvalidProof)
  {
  }

  // ---------------------------------------------------------------------
  // Transactions.

  datatype SpendProof = SpendProof(proof: Halo2Proof, nullifier: Digest, anchor: Digest)

  datatype OutputProof = OutputProof(proof: Halo2Proof, commitment: Notes.NoteCommitment)

  type int64 = x: int | -0x8000_0000_0000_0000 <= x < 0x8000_0000_0000_0000

  datatype BindingSignature = BindingSignature(signature: Bytes, valueBalance: int64)

  datatype TransactionProof = TransactionProof(
    spendProofs: seq<SpendProof>,
    outputProofs: seq<OutputProof>,
    bindingSig: BindingSignature)

  function SpendHalo2(spends: seq<SpendProof>): (ps: seq<Halo2Proof>)
    ensures |ps| == |spends|
    ensures forall i :: 0 <= i < |spends| ==> ps[i] == spends[i].proof
  {
    seq(|spends|, i requires 0 <= i < |spends| => spends[i].proof)
  }

  function OutputHalo2(outputs: seq<OutputProof>): (ps: seq<Halo2Proof>)
    ensures |ps| == |outputs|
    ensures forall i :: 0 <= i < |outputs| ==> ps[i] == outputs[i].proof
  {
    seq(|outputs|, i requires 0 <= i < |outputs| => outputs[i].proof)
  }

  /** The proofs a transaction carries, in the order they are checked. */
  function TxHalo2(tx: TransactionProof): seq<Halo2Proof>
  {
    SpendHalo2(tx.spendProofs) + OutputHalo2(tx.outputProofs)
  }

  /** The reference outcome: the first proof that does not pass decides it,
      and a sequence of passing proofs gives `Ok(true)`. */
  function FirstOutcome(check: ProofCheck, v: ProofVerifier, ps: seq<Halo2Proof>): Result<bool>
  {
    if |ps| == 0 then Ok(true)
    else if VerifyHalo2(check, v, ps[0]) == Ok(true) then FirstOutcome(check, v, ps[1..])
    else VerifyHalo2(check, v, ps[0])
  }

  /** `Ok(true)` exactly when every proof passes. */
  lemma {:induction false} AllPassIffTrue(check: ProofCheck, v: ProofVerifier, ps: seq<Halo2Proof>)
    ensures FirstOutcome(check, v, ps) == Ok(true)
        <==> forall i :: 0 <= i < |ps| ==> VerifyHalo2(check, v, ps[i]) == Ok(true)
  {
    if |ps| > 0 {
      AllPassIffTrue(check, v, ps[1..]);
      if forall i :: 0 <= i < |ps| ==> VerifyHalo2(check, v, ps[i]) == Ok(true) {
        assert forall i :: 0 <= i < |ps| - 1 ==> ps[1..][i] == ps[i + 1];
      }
      if FirstOutcome(check, v, ps) == Ok(true) {
        forall i | 0 <= i < |ps|
          ensures VerifyHalo2(check, v, ps[i]) == Ok(true)
        {
          if i > 0 {
            assert ps[i] == ps[1..][i - 1];
          }
        }
      }
    }
  }

  /** When every proof before index `i` passes and proof `i` does not, proof
      `i`'s result (`Ok(false)` or its error) is the outcome. */
  lemma {:induction false} FirstFailureDecides(check: ProofCheck, v: ProofVerifier, ps: seq<Halo2Proof>, i: nat)
    requires i < |ps|
    requires forall j :: 0 <= j < i ==> VerifyHalo2(check, v, ps[j]) == Ok(true)
    requires VerifyHalo2(check, v, ps[i]) != Ok(true)
    ensures FirstOutcome(check, v, ps) == VerifyHalo2(check, v, ps[i])
  {
    if i > 0 {
      assert ps[1..][i - 1] == ps[i];
      assert forall j :: 0 <= j < i - 1 ==> ps[1..][j] == ps[j + 1];
      FirstFailureDecides(check, v, ps[1..], i - 1);
    }
  }

  /** `verify_transaction`: spend proofs in order, then output proofs in
      order, returning `Ok(false)` at the first one that fails and the first
      error as it comes; the binding signature is never read. */
  method VerifyTransaction(check: ProofCheck, v: ProofVerifier, tx: TransactionProof) returns (r: Result<bool>)
    ensures r == FirstOutcome(check, v, TxHalo2(tx))
  {
    var ps := TxHalo2(tx);
    var n := |tx.spendProofs|;
    var i := 0;
    while i < n
      invariant 0 <= i <= n
      invariant FirstOutcome(check, v, ps) == FirstOutcome(check, v, ps[i..])
    {
      assert ps[i] == tx.spendProofs[i].proof && ps[i..][1..] == ps[i + 1..];
      var ok :- VerifyHalo2(check, v, tx.spendProofs[i].proof);
      if !ok {
        return Ok(false);
      }
      i := i + 1;
    }
    var j := 0;
    while j < |tx.outputProofs|
      invariant 0 <= j <= |tx.outputProofs|
      invariant FirstOutcome(check, v, ps) == FirstOutcome(check, v, ps[n + j..])
    {
      assert ps[n + j] == tx.outputProofs[j].proof && ps[n + j..][1..] == ps[n + j + 1..];
      var ok :- VerifyHalo2(check, v, tx.outputProofs[j].proof);
      if !ok {
        return Ok(false);
      }
      j := j + 1;
    }
    assert ps[n + j..] == [];
    return Ok(true);
  }

  /** Two transactions with the same proofs get the same outcome, whatever
      their binding signatures. */
  lemma BindingSignatureUnread(check: ProofCheck, v: ProofVerifier, tx: TransactionProof, sig: BindingSignature)
    ensures FirstOutcome(check, v, TxHalo2(tx.(bindingSig := sig))) == FirstOutcome(check, v, TxHalo2(tx))
  {
  }
}
